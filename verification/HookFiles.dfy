/** Hook command words that end with a known file of the bundle. */
module HookFiles {
  import opened Basics
  import opened HookWords
  import opened HookCommand

  // ---- The longest known file that ends a word ----

  predicate EndsWith(word: string, key: string) {
    |key| <= |word| && word[|word| - |key|..] == key
  }

  /** `word` ends with `key` at a path-component boundary. */
  predicate SuffixMatches(word: string, key: string) {
    EndsWith(word, key) && (|key| == |word| || word[|word| - |key| - 1] == '/')
  }

  ghost predicate IsLongestMatch(word: string, keys: set<string>, key: string) {
    && key in keys && SuffixMatches(word, key)
    && forall other | other in keys && SuffixMatches(word, other) :: |other| <= |key|
  }

  /** Two files of the same length that end one word are the same file. */
  lemma LongestIsUnique(word: string, keys: set<string>, a: string, b: string)
    requires IsLongestMatch(word, keys, a) && IsLongestMatch(word, keys, b)
    ensures a == b
  {
    assert |a| == |b|;
  }

  ghost function LongestMatch(word: string, keys: set<string>): (longest: Option<string>)
    ensures longest.Some? ==> IsLongestMatch(word, keys, longest.value)
    ensures longest.None? ==> forall key :: !IsLongestMatch(word, keys, key)
  {
    if exists key :: IsLongestMatch(word, keys, key) then
      var key :| IsLongestMatch(word, keys, key);
      Some(key)
    else None
  }

  lemma LongestMatchIs(word: string, keys: set<string>, key: string)
    requires IsLongestMatch(word, keys, key)
    ensures LongestMatch(word, keys) == Some(key)
  {
    LongestIsUnique(word, keys, key, LongestMatch(word, keys).value);
  }

  // ---- The sorted candidates ----

  function CharBytes(c: char): nat {
    if c as int < 0x80 then 1 else if c as int < 0x800 then 2 else if c as int < 0x1_0000 then 3 else 4
  }

  /** The length in bytes, which is what the candidates are sorted by. */
  function ByteLength(s: string): nat {
    if s == "" then 0 else CharBytes(s[0]) + ByteLength(s[1..])
  }

  predicate LongestFirst(candidates: seq<string>) {
    forall i, j | 0 <= i < j < |candidates| :: ByteLength(candidates[i]) >= ByteLength(candidates[j])
  }

  lemma {:induction false} LongerHasMoreBytes(s: string, n: nat)
    requires n <= |s|
    ensures ByteLength(s[n..]) <= ByteLength(s)
    ensures n > 0 ==> ByteLength(s[n..]) < ByteLength(s)
  {
    if n == 0 {
      assert s[n..] == s;
    } else {
      LongerHasMoreBytes(s[1..], n - 1);
      assert s[1..][n - 1..] == s[n..];
    }
  }

  /** Of two endings of one word, the longer one has more bytes. */
  lemma LongerEnding(word: string, a: string, b: string)
    requires EndsWith(word, a) && EndsWith(word, b) && |a| < |b|
    ensures ByteLength(a) < ByteLength(b)
  {
    assert b[|b| - |a|..] == a;
    LongerHasMoreBytes(b, |b| - |a|);
  }

  function InsertByLength(key: string, sorted: seq<string>): (r: seq<string>)
    ensures forall x :: x in r <==> x == key || x in sorted
  {
    if sorted == [] || ByteLength(key) >= ByteLength(sorted[0]) then [key] + sorted
    else
      assert sorted == [sorted[0]] + sorted[1..];
      [sorted[0]] + InsertByLength(key, sorted[1..])
  }

  lemma {:induction false} InsertKeepsOrder(key: string, sorted: seq<string>)
    requires LongestFirst(sorted)
    ensures LongestFirst(InsertByLength(key, sorted))
  {
    if sorted != [] && ByteLength(key) < ByteLength(sorted[0]) {
      InsertKeepsOrder(key, sorted[1..]);
      var rest := InsertByLength(key, sorted[1..]);
      forall i | 0 <= i < |rest| ensures ByteLength(sorted[0]) >= ByteLength(rest[i]) {
        assert rest[i] in rest;
        if rest[i] != key {
          var k :| 0 <= k < |sorted| - 1 && sorted[1..][k] == rest[i];
          assert sorted[k + 1] == rest[i];
        }
      }
    }
  }

  /** The known files, longest first. Files of the same length come in any order. */
  method SortCandidates(keys: set<string>) returns (candidates: seq<string>)
    ensures LongestFirst(candidates)
    ensures forall key :: key in candidates <==> key in keys
  {
    candidates := [];
    var todo := keys;
    while todo != {}
      invariant todo <= keys
      invariant LongestFirst(candidates)
      invariant forall key :: key in candidates <==> key in keys - todo
    {
      var key :| key in todo;
      InsertKeepsOrder(key, candidates);
      candidates := InsertByLength(key, candidates);
      todo := todo - {key};
    }
  }

  function FirstMatch(word: string, candidates: seq<string>): Option<string> {
    if candidates == [] then None
    else if SuffixMatches(word, candidates[0]) then Some(candidates[0])
    else FirstMatch(word, candidates[1..])
  }

  /** The first match in any such order is the longest one. */
  lemma {:induction false} FirstMatchIsLongest(word: string, candidates: seq<string>, keys: set<string>)
    requires LongestFirst(candidates)
    requires forall key :: key in candidates <==> key in keys
    ensures FirstMatch(word, candidates) == LongestMatch(word, keys)
  {
    FirstMatchLaws(word, candidates);
    var first := FirstMatch(word, candidates);
    if first.Some? {
      forall other | other in keys && SuffixMatches(word, other) ensures |other| <= |first.value| {
        if |first.value| < |other| { LongerEnding(word, first.value, other); }
      }
      LongestMatchIs(word, keys, first.value);
    }
  }

  lemma {:induction false} FirstMatchLaws(word: string, candidates: seq<string>)
    requires LongestFirst(candidates)
    ensures var first := FirstMatch(word, candidates);
            match first
            case None => forall key | key in candidates :: !SuffixMatches(word, key)
            case Some(k) => k in candidates && SuffixMatches(word, k) &&
                            forall key | key in candidates && SuffixMatches(word, key) ::
                              ByteLength(k) >= ByteLength(key)
  {
    if candidates != [] {
      HeadIsLongest(candidates);
      FirstMatchLaws(word, candidates[1..]);
    }
  }

  lemma HeadIsLongest(candidates: seq<string>)
    requires LongestFirst(candidates) && candidates != []
    ensures LongestFirst(candidates[1..])
    ensures forall key :: key in candidates <==> key == candidates[0] || key in candidates[1..]
    ensures forall key | key in candidates :: ByteLength(candidates[0]) >= ByteLength(key)
  {
    assert candidates == [candidates[0]] + candidates[1..];
    forall key | key in candidates ensures ByteLength(candidates[0]) >= ByteLength(key) {
      var i :| 0 <= i < |candidates| && candidates[i] == key;
    }
  }

  // ---- The second pass ----

  function FileOutcome(longest: Option<string>, cache: string): Rewrite {
    match longest
    case None => Keep
    case Some(key) => if IsUnsafeJoinTarget(key) then Refuse(key) else Replace(JoinPath(cache, key))
  }

  /** What the pass does to a core: the cache folder joined with the longest known file that ends it. */
  ghost function FileRewriteSpec(core: string, cache: string, keys: set<string>): Rewrite {
    if '/' in core then FileOutcome(LongestMatch(core, keys), cache) else Keep
  }

  function FileRewrite(cache: string, candidates: seq<string>): string -> Rewrite {
    (core: string) => if '/' in core then FileOutcome(FirstMatch(core, candidates), cache) else Keep
  }

  ghost function OnFiles(cache: string, keys: set<string>): string -> WordResult {
    ByCore((core: string) => FileRewriteSpec(core, cache, keys))
  }

  ghost function ResolvedByFiles(command: string, cache: string, keys: set<string>): Result<Option<string>, string> {
    var on := OnFiles(cache, keys);
    match FirstRefusal(command, on)
    case Some(key) => Err(key)
    case None => Ok(if AnyTouched(command, on) then Some(Rewritten(command, on)) else None)
  }

  lemma {:induction false} SameOnEveryWord(s: string, f: string -> WordResult, g: string -> WordResult)
    requires forall word :: f(word) == g(word)
    ensures Rewritten(s, f) == Rewritten(s, g) && AnyTouched(s, f) == AnyTouched(s, g) &&
            FirstRefusal(s, f) == FirstRefusal(s, g)
    decreases |s|
  {
    if WordEnd(s) < |s| {
      SameOnEveryWord(s[WordEnd(s) + 1..], f, g);
    }
  }

  lemma CandidatesDoNotMatter(cache: string, candidates: seq<string>, keys: set<string>, command: string)
    requires LongestFirst(candidates)
    requires forall key :: key in candidates <==> key in keys
    ensures var f, g := ByCore(FileRewrite(cache, candidates)), OnFiles(cache, keys);
            Rewritten(command, f) == Rewritten(command, g) && AnyTouched(command, f) == AnyTouched(command, g) &&
            FirstRefusal(command, f) == FirstRefusal(command, g)
  {
    var f, g := ByCore(FileRewrite(cache, candidates)), OnFiles(cache, keys);
    forall word ensures f(word) == g(word) {
      FirstMatchIsLongest(SplitWord(word).core, candidates, keys);
    }
    SameOnEveryWord(command, f, g);
  }

  method ResolveAgainstFiles(command: string, cache: string, keys: set<string>)
    returns (r: Result<Option<string>, string>)
    ensures r == ResolvedByFiles(command, cache, keys)
  {
    var candidates := SortCandidates(keys);
    var rewritten, refused := RewriteWords(command, FileRewrite(cache, candidates));
    CandidatesDoNotMatter(cache, candidates, keys, command);
    match refused {
      case Some(key) => r := Err(key);
      case None => r := Ok(rewritten);
    }
  }

  /** The pass fails exactly when the longest known file that ends some word leaves the bundle. */
  lemma RefusalIsUnsafeMatch(command: string, cache: string, keys: set<string>)
    ensures ResolvedByFiles(command, cache, keys).Err? <==>
            exists i | 0 <= i < |Words(command)| :: UnsafeWord(Words(command)[i], keys)
  {
    RefusalIsSomeWord(command, OnFiles(cache, keys));
    RefusedWordsAreUnsafe(Words(command), cache, keys);
  }

  lemma RefusedIsUnsafe(word: string, cache: string, keys: set<string>)
    ensures OnFiles(cache, keys)(word).refusal.Some? <==> UnsafeWord(word, keys)
  {
  }

  lemma RefusedWordsAreUnsafe(words: seq<string>, cache: string, keys: set<string>)
    ensures SomeRefused(words, OnFiles(cache, keys)) <==>
            exists i | 0 <= i < |words| :: UnsafeWord(words[i], keys)
  {
    var on := OnFiles(cache, keys);
    forall i | 0 <= i < |words| ensures on(words[i]).refusal.Some? <==> UnsafeWord(words[i], keys) {
      RefusedIsUnsafe(words[i], cache, keys);
    }
    if i :| 0 <= i < |words| && UnsafeWord(words[i], keys) {
      assert on(words[i]).refusal.Some?;
    }
    if i :| 0 <= i < |words| && on(words[i]).refusal.Some? {
      assert UnsafeWord(words[i], keys);
    }
  }

  ghost predicate UnsafeWord(word: string, keys: set<string>) {
    var core := SplitWord(word).core;
    '/' in core && LongestMatch(core, keys).Some? && IsUnsafeJoinTarget(LongestMatch(core, keys).value)
  }

  predicate SomeRefused(words: seq<string>, on: string -> WordResult) {
    exists i | 0 <= i < |words| :: on(words[i]).refusal.Some?
  }

  lemma SomeRefusedFrom(word: string, words: seq<string>, on: string -> WordResult)
    ensures SomeRefused([word] + words, on) <==> on(word).refusal.Some? || SomeRefused(words, on)
  {
    var all := [word] + words;
    if i :| 0 <= i < |words| && on(words[i]).refusal.Some? {
      assert on(all[i + 1]).refusal.Some?;
    }
    if on(word).refusal.Some? {
      assert on(all[0]).refusal.Some?;
    }
    if i :| 0 <= i < |all| && on(all[i]).refusal.Some? {
      assert i > 0 ==> on(words[i - 1]).refusal.Some?;
    }
  }

  lemma {:induction false} RefusalIsSomeWord(s: string, on: string -> WordResult)
    ensures FirstRefusal(s, on).Some? <==> SomeRefused(Words(s), on)
    decreases |s|
  {
    if IsOneWord(s) {
      OneWordReads(s);
      OneWord(s, on);
      assert [s] + [] == [s];
      SomeRefusedFrom(s, [], on);
    } else {
      var n := WordEnd(s);
      RefusalIsSomeWord(s[n + 1..], on);
      FirstWordRefusal(s, on, n);
      WordsFrom(s);
      SomeRefusedFrom(s[..n], Words(s[n + 1..]), on);
    }
  }
}
