/** Word-by-word rewriting of a hook command that keeps every space, quote and punctuation mark. */
module HookWords {
  import opened Basics
  import opened Sequences

  predicate SpaceFree(s: string) {
    forall i | 0 <= i < |s| :: !IsWhitespace(s[i])
  }

  predicate AllIn(s: string, marks: set<char>) {
    forall i | 0 <= i < |s| :: s[i] in marks
  }

  const OPENING: set<char> := {'"', '\'', '('}
  const CLOSING: set<char> := {'"', '\'', ';', '&', '|', ')'}

  // ---- One word ----

  function MarksFrom(s: string, marks: set<char>, i: nat): (n: nat)
    requires i <= |s|
    ensures i <= n <= |s| && (n < |s| ==> s[n] !in marks)
    ensures forall k | i <= k < n :: s[k] in marks
    decreases |s| - i
  {
    if i < |s| && s[i] in marks then MarksFrom(s, marks, i + 1) else i
  }

  /** How many leading characters of `s` are marks. */
  function LeadingMarks(s: string, marks: set<char>): (n: nat)
    ensures n <= |s| && (n < |s| ==> s[n] !in marks)
    ensures forall k | 0 <= k < n :: s[k] in marks
  {
    MarksFrom(s, marks, 0)
  }

  function MarksTo(s: string, marks: set<char>, i: nat): (n: nat)
    requires i <= |s|
    ensures n <= i && (n > 0 ==> s[n - 1] !in marks)
    ensures forall k | n <= k < i :: s[k] in marks
  {
    if i > 0 && s[i - 1] in marks then MarksTo(s, marks, i - 1) else i
  }

  /** Where the trailing marks of `s` start. */
  function TrailingMarks(s: string, marks: set<char>): (n: nat)
    ensures n <= |s| && (n > 0 ==> s[n - 1] !in marks)
    ensures forall k | n <= k < |s| :: s[k] in marks
  {
    MarksTo(s, marks, |s|)
  }

  datatype Split = Split(prefix: string, core: string, suffix: string)

  /** The quotes before a word, the word, and the quotes and punctuation after it. */
  function SplitWord(word: string): Split {
    var start := LeadingMarks(word, OPENING);
    var rest := word[start..];
    var end := TrailingMarks(rest, CLOSING);
    Split(word[..start], rest[..end], rest[end..])
  }

  /** A core without outer marks, between marks only. */
  predicate IsSplit(parts: Split) {
    && AllIn(parts.prefix, OPENING)
    && AllIn(parts.suffix, CLOSING)
    && (parts.core != "" ==> parts.core[0] !in OPENING && parts.core[|parts.core| - 1] !in CLOSING)
  }

  function JoinParts(parts: Split): string {
    parts.prefix + parts.core + parts.suffix
  }

  lemma LeadingMarksAreMarks(s: string, marks: set<char>)
    ensures AllIn(s[..LeadingMarks(s, marks)], marks)
  {
  }

  lemma TrailingMarksAreMarks(s: string, marks: set<char>)
    ensures AllIn(s[TrailingMarks(s, marks)..], marks)
  {
  }

  /** The three pieces join back to the word, and the core keeps no outer mark. */
  lemma SplitWordLaws(word: string)
    ensures JoinParts(SplitWord(word)) == word
    ensures IsSplit(SplitWord(word))
  {
    var start := LeadingMarks(word, OPENING);
    CutTwice(word, start, TrailingMarks(word[start..], CLOSING));
    SplitWordIsSplit(word);
  }

  lemma SplitWordIsSplit(word: string)
    ensures IsSplit(SplitWord(word))
  {
    var start := LeadingMarks(word, OPENING);
    var rest := word[start..];
    LeadingMarksAreMarks(word, OPENING);
    TrailingMarksAreMarks(rest, CLOSING);
    var end := TrailingMarks(rest, CLOSING);
    assert end > 0 ==> rest[..end][0] == word[start] && rest[..end][end - 1] == rest[end - 1];
  }

  lemma LeadingMarksOf(marks: set<char>, prefix: string, rest: string)
    requires AllIn(prefix, marks) && (rest == "" || rest[0] !in marks)
    ensures LeadingMarks(prefix + rest, marks) == |prefix|
  {
    var s := prefix + rest;
    assert forall k | 0 <= k < |prefix| :: s[k] == prefix[k];
    assert rest != "" ==> s[|prefix|] == rest[0];
  }

  lemma TrailingMarksOf(marks: set<char>, rest: string, suffix: string)
    requires AllIn(suffix, marks) && (rest == "" || rest[|rest| - 1] !in marks)
    ensures TrailingMarks(rest + suffix, marks) == |rest|
  {
    var s := rest + suffix;
    assert forall k | |rest| <= k < |s| :: s[k] == suffix[k - |rest|];
    assert rest != "" ==> s[|rest| - 1] == rest[|rest| - 1];
  }

  /** The split is the only one of its kind: another bare core between marks is split the same way. */
  lemma SplitWordOf(parts: Split)
    requires IsSplit(parts) && parts.core != ""
    ensures SplitWord(JoinParts(parts)) == parts
  {
    var word, rest := JoinParts(parts), parts.core + parts.suffix;
    assert word == parts.prefix + rest;
    LeadingMarksOf(OPENING, parts.prefix, rest);
    assert word[|parts.prefix|..] == rest;
    TrailingMarksOf(CLOSING, parts.core, parts.suffix);
  }

  lemma BareParts(word: string)
    ensures JoinParts(Split("", word, "")) == word
  {
  }

  /** A word without outer marks is its own core. */
  lemma BareWord(word: string)
    requires word != "" && word[0] !in OPENING && word[|word| - 1] !in CLOSING
    ensures SplitWord(word) == Split("", word, "")
  {
    BareParts(word);
    SplitWordOf(Split("", word, ""));
  }

  lemma SpaceFreeParts(parts: Split)
    requires SpaceFree(JoinParts(parts))
    ensures SpaceFree(parts.prefix) && SpaceFree(parts.core) && SpaceFree(parts.suffix)
  {
    var word := JoinParts(parts);
    assert forall i | 0 <= i < |parts.prefix| :: word[i] == parts.prefix[i];
    assert forall i | 0 <= i < |parts.core| :: word[|parts.prefix| + i] == parts.core[i];
    assert forall i | 0 <= i < |parts.suffix| :: word[|parts.prefix| + |parts.core| + i] == parts.suffix[i];
  }

  // ---- Rewriting a command ----

  /** What becomes of one word. */
  datatype WordResult = WordResult(text: string, changed: bool, refusal: Option<string>)

  /** Where the word that goes on at `i` ends. */
  function WordEndFrom(s: string, i: nat): (n: nat)
    requires i <= |s|
    ensures i <= n <= |s|
    ensures n < |s| ==> IsWhitespace(s[n])
    ensures forall k | i <= k < n :: !IsWhitespace(s[k])
    decreases |s| - i
  {
    if i == |s| || IsWhitespace(s[i]) then i else WordEndFrom(s, i + 1)
  }

  /** How far the first word reaches. */
  function WordEnd(s: string): (n: nat)
    ensures n <= |s|
    ensures n < |s| ==> IsWhitespace(s[n])
    ensures forall k | 0 <= k < n :: !IsWhitespace(s[k])
  {
    WordEndFrom(s, 0)
  }

  lemma FirstWordIsSpaceFree(s: string)
    ensures SpaceFree(s[..WordEnd(s)])
  {
  }

  lemma WordEndOf(word: string, rest: string)
    requires SpaceFree(word) && (rest == "" || IsWhitespace(rest[0]))
    ensures WordEnd(word + rest) == |word|
  {
    var s := word + rest;
    assert forall i | 0 <= i < |word| :: s[i] == word[i];
    assert rest != "" ==> s[|word|] == rest[0];
  }

  /** The command with each word rewritten and every whitespace character in place. */
  function Rewritten(s: string, on: string -> WordResult): string {
    var n := WordEnd(s);
    if n == |s| then on(s).text
    else on(s[..n]).text + ([s[n]] + Rewritten(s[n + 1..], on))
  }

  predicate AnyTouched(s: string, on: string -> WordResult) {
    var n := WordEnd(s);
    on(s[..n]).changed || (n < |s| && AnyTouched(s[n + 1..], on))
  }

  /** The first refusal in word order. */
  function FirstRefusal(s: string, on: string -> WordResult): Option<string> {
    var n := WordEnd(s);
    if on(s[..n]).refusal.Some? then on(s[..n]).refusal
    else if n < |s| then FirstRefusal(s[n + 1..], on)
    else None
  }

  /** What becomes of a whole command. */
  ghost function Outcome(s: string, on: string -> WordResult): WordResult {
    WordResult(Rewritten(s, on), AnyTouched(s, on), FirstRefusal(s, on))
  }

  /** One outcome after another. */
  ghost function Then(a: WordResult, b: WordResult): WordResult {
    WordResult(a.text + b.text, a.changed || b.changed, if a.refusal.Some? then a.refusal else b.refusal)
  }

  ghost function Space(c: char): WordResult {
    WordResult([c], false, None)
  }

  const NOTHING := WordResult("", false, None)

  lemma ThenAssociates(a: WordResult, b: WordResult, c: WordResult)
    ensures Then(a, Then(b, c)) == Then(Then(a, b), c)
    ensures Then(a, NOTHING) == a == Then(NOTHING, a)
  {
    assert a.text + (b.text + c.text) == a.text + b.text + c.text;
    assert a.text + "" == a.text == "" + a.text;
  }

  lemma StepsAssociate(a: WordResult, b: WordResult, c: WordResult, d: WordResult)
    ensures Then(a, Then(b, Then(c, d))) == Then(Then(Then(a, b), c), d)
  {
    ThenAssociates(a, b, Then(c, d));
    ThenAssociates(Then(a, b), c, d);
  }

  lemma OneWord(s: string, on: string -> WordResult)
    requires WordEnd(s) == |s|
    ensures Outcome(s, on) == on(s)
  {
    assert s[..|s|] == s;
  }

  lemma FirstWordText(s: string, on: string -> WordResult, n: nat)
    requires n == WordEnd(s) < |s|
    ensures Rewritten(s, on) == on(s[..n]).text + ([s[n]] + Rewritten(s[n + 1..], on))
  {
  }

  lemma FirstWordTouch(s: string, on: string -> WordResult, n: nat)
    requires n == WordEnd(s) < |s|
    ensures AnyTouched(s, on) == (on(s[..n]).changed || AnyTouched(s[n + 1..], on))
  {
  }

  lemma FirstWordRefusal(s: string, on: string -> WordResult, n: nat)
    requires n == WordEnd(s) < |s|
    ensures FirstRefusal(s, on) == if on(s[..n]).refusal.Some? then on(s[..n]).refusal else FirstRefusal(s[n + 1..], on)
  {
  }

  lemma FirstWordThen(s: string, on: string -> WordResult, n: nat, tail: string)
    requires n == WordEnd(s) < |s| && tail == s[n + 1..]
    ensures Outcome(s, on) == Then(on(s[..n]), Then(Space(s[n]), Outcome(tail, on)))
  {
    FirstWordText(s, on, n);
    FirstWordTouch(s, on, n);
    FirstWordRefusal(s, on, n);
  }

  /** A step of the loop: one word and the space after it move from the rest to what is done. */
  lemma ProgressStep(whole: WordResult, rest: string, on: string -> WordResult, done: WordResult, n: nat, tail: string)
    requires whole == Then(done, Outcome(rest, on))
    requires n == WordEnd(rest) < |rest| && tail == rest[n + 1..]
    ensures whole == Then(Then(Then(done, on(rest[..n])), Space(rest[n])), Outcome(tail, on))
  {
    FirstWordThen(rest, on, n, tail);
    StepsAssociate(done, on(rest[..n]), Space(rest[n]), Outcome(tail, on));
  }

  lemma ProgressEnd(whole: WordResult, rest: string, on: string -> WordResult, done: WordResult)
    requires whole == Then(done, Outcome(rest, on))
    requires on("") == NOTHING
    requires WordEnd(rest) == |rest|
    ensures whole == Then(Then(done, on(rest)), Outcome("", on))
  {
    OneWord(rest, on);
    OneWord("", on);
    ThenAssociates(Then(done, on(rest)), NOTHING, NOTHING);
  }

  /** Rewrite each word of `command`. Nothing comes back when no word changed. The first refusal is
      remembered. */
  method RewriteEach(command: string, on: string -> WordResult)
    returns (result: Option<string>, refused: Option<string>)
    requires on("") == WordResult("", false, None)
    ensures result == if AnyTouched(command, on) then Some(Rewritten(command, on)) else None
    ensures refused == FirstRefusal(command, on)
  {
    var changed := false;
    var text := "";
    refused := None;
    var rest := command;
    ghost var whole := Outcome(command, on);
    ThenAssociates(whole, NOTHING, NOTHING);
    while rest != ""
      invariant whole == Then(WordResult(text, changed, refused), Outcome(rest, on))
      decreases |rest|
    {
      ghost var done := WordResult(text, changed, refused);
      var n := WordEnd(rest);
      var word := on(rest[..n]);
      text := text + word.text;
      changed := changed || word.changed;
      refused := if refused.None? then word.refusal else refused;
      assert WordResult(text, changed, refused) == Then(done, word);
      if n == |rest| {
        assert rest[..n] == rest;
        ProgressEnd(whole, rest, on, done);
        rest := "";
      } else {
        ProgressStep(whole, rest, on, done, n, rest[n + 1..]);
        text := text + [rest[n]];
        rest := rest[n + 1..];
      }
    }
    OneWord("", on);
    ThenAssociates(WordResult(text, changed, refused), NOTHING, NOTHING);
    result := if changed then Some(text) else None;
  }

  // ---- What the rewriting keeps ----

  /** The words between the whitespace characters, in order. */
  function Words(s: string): (words: seq<string>)
    ensures |words| >= 1
  {
    var n := WordEnd(s);
    if n == |s| then [s] else [s[..n]] + Words(s[n + 1..])
  }

  /** The whitespace characters, in order. */
  function Spaces(s: string): seq<char> {
    var n := WordEnd(s);
    if n == |s| then "" else [s[n]] + Spaces(s[n + 1..])
  }

  /** Each word with the whitespace character after it, and the last word. */
  function Interleave(words: seq<string>, spaces: seq<char>): string {
    if words == [] then ""
    else if spaces == [] then words[0]
    else words[0] + ([spaces[0]] + Interleave(words[1..], spaces[1..]))
  }

  lemma {:induction false} OneSpaceFewer(s: string)
    ensures |Spaces(s)| + 1 == |Words(s)|
    decreases |s|
  {
    if WordEnd(s) < |s| {
      OneSpaceFewer(s[WordEnd(s) + 1..]);
    }
  }

  function MapWords(words: seq<string>, on: string -> WordResult): (mapped: seq<string>)
    ensures |mapped| == |words|
  {
    seq(|words|, i requires 0 <= i < |words| => on(words[i]).text)
  }

  lemma WordsFrom(s: string)
    requires WordEnd(s) != |s|
    ensures Words(s) == [s[..WordEnd(s)]] + Words(s[WordEnd(s) + 1..])
  {
  }

  lemma SpacesFrom(s: string)
    requires WordEnd(s) != |s|
    ensures Spaces(s) == [s[WordEnd(s)]] + Spaces(s[WordEnd(s) + 1..])
  {
  }

  lemma InterleaveFrom(word: string, words: seq<string>, space: char, spaces: seq<char>)
    ensures Interleave([word] + words, [space] + spaces) == word + ([space] + Interleave(words, spaces))
  {
    assert ([word] + words)[1..] == words && ([space] + spaces)[1..] == spaces;
  }

  predicate IsOneWord(s: string) {
    WordEnd(s) == |s|
  }

  lemma OneWordReads(s: string)
    requires IsOneWord(s)
    ensures Words(s) == [s] && Spaces(s) == []
  {
  }

  /** A command of several words: the first one, the whitespace after it, and the rest. */
  lemma FirstWordAndRest(s: string) returns (word: string, space: char, rest: string)
    requires !IsOneWord(s)
    ensures s == word + ([space] + rest) && SpaceFree(word) && IsWhitespace(space)
    ensures Words(s) == [word] + Words(rest) && Spaces(s) == [space] + Spaces(rest)
  {
    var n := WordEnd(s);
    word, space, rest := s[..n], s[n], s[n + 1..];
    WordsFrom(s);
    SpacesFrom(s);
    CutAt(s, n);
  }

  lemma {:induction false} InterleaveRestores(s: string)
    ensures Interleave(Words(s), Spaces(s)) == s
    decreases |s|
  {
    if IsOneWord(s) {
      OneWordReads(s);
    } else {
      var word, space, rest := FirstWordAndRest(s);
      InterleaveRestores(rest);
      InterleaveFrom(word, Words(rest), space, Spaces(rest));
    }
  }

  lemma MapWordsFrom(word: string, words: seq<string>, on: string -> WordResult)
    ensures MapWords([word] + words, on) == [on(word).text] + MapWords(words, on)
  {
  }

  /** A command is its words and its whitespace, interleaved; rewriting maps the words and keeps the
      whitespace. */
  lemma {:induction false} RewrittenIsWordwise(s: string, on: string -> WordResult)
    ensures Rewritten(s, on) == Interleave(MapWords(Words(s), on), Spaces(s))
    decreases |s|
  {
    var n := WordEnd(s);
    if n < |s| {
      var rest := s[n + 1..];
      RewrittenIsWordwise(rest, on);
      FirstWordText(s, on, n);
      WordsFrom(s);
      SpacesFrom(s);
      MapWordsFrom(s[..n], Words(rest), on);
      InterleaveFrom(on(s[..n]).text, MapWords(Words(rest), on), s[n], Spaces(rest));
    } else {
      assert Words(s) == [s] && MapWords([s], on) == [on(s).text];
    }
  }

  predicate SomeChanged(words: seq<string>, on: string -> WordResult) {
    exists i | 0 <= i < |words| :: on(words[i]).changed
  }

  lemma SomeChangedCons(word: string, words: seq<string>, on: string -> WordResult)
    ensures SomeChanged([word] + words, on) <==> on(word).changed || SomeChanged(words, on)
  {
    var all := [word] + words;
    if i :| 0 <= i < |words| && on(words[i]).changed {
      assert on(all[i + 1]).changed;
    }
    if on(word).changed {
      assert on(all[0]).changed;
    }
    if i :| 0 <= i < |all| && on(all[i]).changed && !on(word).changed {
      assert on(words[i - 1]).changed;
    }
  }

  /** The loop reports a change exactly when some word changes. */
  lemma {:induction false} TouchedIsSomeWord(s: string, on: string -> WordResult)
    ensures AnyTouched(s, on) <==> SomeChanged(Words(s), on)
    decreases |s|
  {
    var n := WordEnd(s);
    if n < |s| {
      TouchedIsSomeWord(s[n + 1..], on);
      SomeChangedCons(s[..n], Words(s[n + 1..]), on);
    } else {
      assert s[..n] == s;
      SomeChangedCons(s, [], on);
      assert [s] + [] == [s];
    }
  }

  lemma {:induction false} WordsAreSpaceFree(s: string)
    ensures forall i | 0 <= i < |Words(s)| :: SpaceFree(Words(s)[i])
    ensures forall i | 0 <= i < |Spaces(s)| :: IsWhitespace(Spaces(s)[i])
    decreases |s|
  {
    var n := WordEnd(s);
    FirstWordIsSpaceFree(s);
    if n == |s| {
      assert s[..n] == s;
    } else {
      WordsAreSpaceFree(s[n + 1..]);
    }
  }

  lemma FirstWordOf(word: string, space: char, rest: string)
    requires SpaceFree(word) && IsWhitespace(space)
    ensures var s := word + ([space] + rest);
            WordEnd(s) == |word| && s[..|word|] == word && s[|word|] == space && s[|word| + 1..] == rest
  {
    WordEndOf(word, [space] + rest);
  }

  /** Words without whitespace and whitespace characters can be read back from their interleaving. */
  lemma {:induction false} InterleaveIsUnique(words: seq<string>, spaces: seq<char>)
    requires |words| == |spaces| + 1
    requires forall i | 0 <= i < |words| :: SpaceFree(words[i])
    requires forall i | 0 <= i < |spaces| :: IsWhitespace(spaces[i])
    ensures Words(Interleave(words, spaces)) == words && Spaces(Interleave(words, spaces)) == spaces
    decreases |spaces|
  {
    var word := words[0];
    if spaces == [] {
      WordEndOf(word, "");
      assert word + "" == word && words == [word];
      OneWordReads(word);
    } else {
      var rest := Interleave(words[1..], spaces[1..]);
      InterleaveIsUnique(words[1..], spaces[1..]);
      FirstWordReads(word, spaces[0], rest);
      assert words == [word] + words[1..] && spaces == [spaces[0]] + spaces[1..];
    }
  }

  lemma FirstWordReads(word: string, space: char, rest: string)
    requires SpaceFree(word) && IsWhitespace(space)
    ensures Words(word + ([space] + rest)) == [word] + Words(rest)
    ensures Spaces(word + ([space] + rest)) == [space] + Spaces(rest)
  {
    var s := word + ([space] + rest);
    FirstWordOf(word, space, rest);
    WordsFrom(s);
    SpacesFrom(s);
  }

  /** Replacements without whitespace keep the words apart: the words of the rewritten command are the
      rewritten words. */
  lemma RewrittenWords(s: string, on: string -> WordResult)
    requires forall i | 0 <= i < |Words(s)| :: SpaceFree(on(Words(s)[i]).text)
    ensures Words(Rewritten(s, on)) == MapWords(Words(s), on)
    ensures Spaces(Rewritten(s, on)) == Spaces(s)
  {
    RewrittenIsWordwise(s, on);
    WordsAreSpaceFree(s);
    OneSpaceFewer(s);
    InterleaveIsUnique(MapWords(Words(s), on), Spaces(s));
  }

  // ---- Two commands with whitespace between them ----

  lemma WholeIsSpaceFree(s: string)
    requires IsOneWord(s)
    ensures SpaceFree(s)
  {
    FirstWordIsSpaceFree(s);
    assert s[..|s|] == s;
  }

  lemma SpaceFreeIsOneWord(word: string)
    requires SpaceFree(word)
    ensures IsOneWord(word)
  {
    WordEndOf(word, "");
    assert word + "" == word;
  }

  lemma OutcomeFrom(word: string, space: char, rest: string, on: string -> WordResult)
    requires SpaceFree(word) && IsWhitespace(space)
    ensures Outcome(word + ([space] + rest), on) == Then(on(word), Then(Space(space), Outcome(rest, on)))
  {
    FirstWordOf(word, space, rest);
    FirstWordThen(word + ([space] + rest), on, |word|, rest);
  }

  /** The outcome of two commands with whitespace between them is the one of the first, and then the other. */
  lemma {:induction false} OutcomeConcat(a: string, space: char, b: string, on: string -> WordResult)
    requires IsWhitespace(space)
    ensures Outcome(a + ([space] + b), on) == Then(Outcome(a, on), Then(Space(space), Outcome(b, on)))
    decreases |a|
  {
    if IsOneWord(a) {
      WholeIsSpaceFree(a);
      OneWord(a, on);
      OutcomeFrom(a, space, b, on);
    } else {
      var word, first, rest := FirstWordAndRest(a);
      OutcomeConcat(rest, space, b, on);
      OutcomeFrom(word, first, rest, on);
      OutcomeFrom(word, first, rest + ([space] + b), on);
      AssociateFour(word, [first], rest, [space] + b);
      var tail := Then(Space(space), Outcome(b, on));
      ThenAssociates(Space(first), Outcome(rest, on), tail);
      ThenAssociates(on(word), Then(Space(first), Outcome(rest, on)), tail);
    }
  }

  lemma TouchedConcat(a: string, space: char, b: string, on: string -> WordResult)
    requires IsWhitespace(space)
    ensures AnyTouched(a + ([space] + b), on) <==> AnyTouched(a, on) || AnyTouched(b, on)
  {
    OutcomeConcat(a, space, b, on);
    var o := Outcome(a + ([space] + b), on);
    assert o.changed == (Outcome(a, on).changed || Outcome(b, on).changed);
  }

  lemma RewrittenConcat(a: string, space: char, b: string, on: string -> WordResult)
    requires IsWhitespace(space)
    ensures Rewritten(a + ([space] + b), on) == Rewritten(a, on) + ([space] + Rewritten(b, on))
  {
    OutcomeConcat(a, space, b, on);
    var o := Outcome(a + ([space] + b), on);
    assert o.text == Outcome(a, on).text + ([space] + Outcome(b, on).text);
  }

  /** Whether some word is refused. */
  ghost predicate Refuses(s: string, on: string -> WordResult) {
    FirstRefusal(s, on).Some?
  }

  lemma RefusesConcat(a: string, space: char, b: string, on: string -> WordResult)
    requires IsWhitespace(space)
    ensures Refuses(a + ([space] + b), on) <==> Refuses(a, on) || Refuses(b, on)
  {
    OutcomeConcat(a, space, b, on);
    var o := Outcome(a + ([space] + b), on);
    assert o.refusal.Some? <==> Outcome(a, on).refusal.Some? || Outcome(b, on).refusal.Some?;
  }

  lemma SingleWord(word: string, on: string -> WordResult)
    requires SpaceFree(word)
    ensures Rewritten(word, on) == on(word).text && AnyTouched(word, on) == on(word).changed
    ensures FirstRefusal(word, on) == on(word).refusal
  {
    SpaceFreeIsOneWord(word);
    OneWord(word, on);
    var o := Outcome(word, on);
    assert o.text == on(word).text && o.changed == on(word).changed && o.refusal == on(word).refusal;
  }

  lemma TouchedAlike(a: string, b: string, space: char, c: string, d: string, on: string -> WordResult)
    requires IsWhitespace(space) && AnyTouched(a, on) == AnyTouched(b, on) && AnyTouched(c, on) == AnyTouched(d, on)
    ensures AnyTouched(a + ([space] + c), on) == AnyTouched(b + ([space] + d), on)
  {
    TouchedConcat(a, space, c, on);
    TouchedConcat(b, space, d, on);
  }

  lemma OneWordTouch(a: string, b: string, on: string -> WordResult)
    requires SpaceFree(a) && SpaceFree(b) && on(a).changed == on(b).changed
    ensures AnyTouched(a, on) == AnyTouched(b, on)
  {
    SingleWord(a, on);
    SingleWord(b, on);
  }

  /** A text with whitespace, cut at the last one. */
  lemma {:induction false} LastSpace(s: string) returns (before: string, space: char, last: string)
    requires !SpaceFree(s)
    ensures s == before + ([space] + last) && IsWhitespace(space) && SpaceFree(last)
  {
    var n := |s| - 1;
    if IsWhitespace(s[n]) {
      before, space, last := s[..n], s[n], "";
      assert s == before + ([space] + last);
    } else {
      var init := s[..n];
      assert !SpaceFree(init);
      before, space, last := LastSpace(init);
      AssociateFour(before, [space], last, [s[n]]);
      assert s == init + [s[n]];
      last := last + [s[n]];
    }
  }

  // ---- Rewriting the cores ----

  datatype Rewrite = Keep | Replace(text: string) | Refuse(key: string)

  function RewriteWord(word: string, rewrite: string -> Rewrite): WordResult {
    var parts := SplitWord(word);
    var outcome := rewrite(parts.core);
    match outcome
    case Replace(text) =>
      if parts.core == "" then WordResult(word, false, None)
      else WordResult(JoinParts(parts.(core := text)), true, None)
    case Refuse(key) => WordResult(word, false, Some(key))
    case Keep => WordResult(word, false, None)
  }

  function ByCore(rewrite: string -> Rewrite): string -> WordResult {
    (word: string) => RewriteWord(word, rewrite)
  }

  /** Rewrite each word of `command` by its core. */
  method RewriteWords(command: string, rewrite: string -> Rewrite)
    returns (result: Option<string>, refused: Option<string>)
    requires rewrite("") == Keep
    ensures result == if AnyTouched(command, ByCore(rewrite)) then Some(Rewritten(command, ByCore(rewrite))) else None
    ensures refused == FirstRefusal(command, ByCore(rewrite))
  {
    result, refused := RewriteEach(command, ByCore(rewrite));
  }

  /** Quotes before a word whose core starts bare stay outside its core. */
  lemma PrefixKeepsCore(prefix: string, word: string)
    requires AllIn(prefix, OPENING) && word != "" && word[0] !in OPENING && word[0] !in CLOSING
    ensures SplitWord(prefix + word) == SplitWord(word).(prefix := prefix) && SplitWord(word).prefix == ""
  {
    SplitWordLaws(word);
    PrefixedSplit(prefix, SplitWord(word), word);
  }

  lemma PrefixedSplit(prefix: string, parts: Split, word: string)
    requires AllIn(prefix, OPENING) && IsSplit(parts) && JoinParts(parts) == word
    requires word != "" && word[0] !in OPENING && word[0] !in CLOSING
    ensures SplitWord(prefix + word) == parts.(prefix := prefix) && parts.prefix == ""
  {
    FirstOfThree(parts.prefix, parts.core, parts.suffix);
    PrefixedParts(prefix, parts.core, parts.suffix);
    assert word == parts.core + parts.suffix;
    Associate(prefix, parts.core, parts.suffix);
  }

  lemma FirstOfThree(a: string, b: string, c: string)
    requires a + b + c != ""
    ensures (a + b + c)[0] == if a != "" then a[0] else if b != "" then b[0] else c[0]
  {
  }

  lemma PrefixedParts(prefix: string, core: string, suffix: string)
    requires AllIn(prefix, OPENING) && AllIn(suffix, CLOSING)
    requires core != "" && core[0] !in OPENING && core[|core| - 1] !in CLOSING
    ensures SplitWord(prefix + core + suffix) == Split(prefix, core, suffix)
  {
    SplitWordOf(Split(prefix, core, suffix));
  }

  lemma PrefixKeepsFate(prefix: string, word: string, rewrite: string -> Rewrite)
    requires AllIn(prefix, OPENING) && word != "" && word[0] !in OPENING && word[0] !in CLOSING
    ensures ByCore(rewrite)(prefix + word).changed == ByCore(rewrite)(word).changed
    ensures ByCore(rewrite)(prefix + word).refusal == ByCore(rewrite)(word).refusal
  {
    PrefixKeepsCore(prefix, word);
  }

  lemma PrefixIsSpaceFree(prefix: string, word: string)
    requires AllIn(prefix, OPENING) && SpaceFree(word)
    ensures SpaceFree(prefix + word)
  {
    forall i | 0 <= i < |prefix| ensures !IsWhitespace(prefix[i]) {
      assert prefix[i] in OPENING;
    }
  }

  /** Quotes before a command whose first character is bare change nothing about what happens to it. */
  lemma PrefixedCommand(prefix: string, s: string, rewrite: string -> Rewrite)
    requires AllIn(prefix, OPENING) && s != "" && s[0] !in OPENING && s[0] !in CLOSING && !IsWhitespace(s[0])
    ensures AnyTouched(prefix + s, ByCore(rewrite)) == AnyTouched(s, ByCore(rewrite))
    ensures Refuses(prefix + s, ByCore(rewrite)) == Refuses(s, ByCore(rewrite))
  {
    var on := ByCore(rewrite);
    if IsOneWord(s) {
      WholeIsSpaceFree(s);
      PrefixIsSpaceFree(prefix, s);
      SingleWord(s, on);
      SingleWord(prefix + s, on);
      PrefixKeepsFate(prefix, s, rewrite);
    } else {
      var word, space, rest := FirstWordAndRest(s);
      assert word != "" by {
        assert word == "" ==> s == [space] + rest;
      }
      assert word[0] == s[0];
      PrefixIsSpaceFree(prefix, word);
      Associate(prefix, word, [space] + rest);
      PrefixKeepsFate(prefix, word, rewrite);
      SingleWord(word, on);
      SingleWord(prefix + word, on);
      TouchedConcat(word, space, rest, on);
      TouchedConcat(prefix + word, space, rest, on);
      RefusesConcat(word, space, rest, on);
      RefusesConcat(prefix + word, space, rest, on);
    }
  }
}
