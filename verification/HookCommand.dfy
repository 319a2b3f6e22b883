/** Paths as text, and the words of a hook command that name a file relative to the bundle. */
module HookCommand {
  import opened Basics
  import opened HookWords

  // ---- Paths as text ----

  predicate IsPathChar(c: char) {
    'a' <= c <= 'z' || 'A' <= c <= 'Z' || '0' <= c <= '9' || c in {'.', '_', '-', '+', '@', '/'}
  }

  /** A `..` component starts at `i`. */
  predicate ParentAt(path: string, i: nat) {
    && i + 2 <= |path| && path[i] == '.' && path[i + 1] == '.'
    && (i == 0 || path[i - 1] == '/')
    && (i + 2 == |path| || path[i + 2] == '/')
  }

  predicate HasParentComponent(path: string) {
    exists i: nat | i < |path| :: ParentAt(path, i)
  }

  /** Joining `path` onto a folder would leave the folder. */
  predicate IsUnsafeJoinTarget(path: string) {
    (path != "" && path[0] == '/') || HasParentComponent(path)
  }

  function Separator(dir: string): string {
    if dir == "" || dir[|dir| - 1] == '/' then "" else "/"
  }

  function JoinPath(dir: string, rel: string): string {
    if rel != "" && rel[0] == '/' then rel else dir + Separator(dir) + rel
  }

  predicate IsAbsolute(dir: string) {
    dir != "" && dir[0] == '/'
  }

  // ---- Bundle-relative words ----

  predicate PathChars(word: string) {
    forall i | 0 <= i < |word| :: IsPathChar(word[i])
  }

  /** A word that names a file inside the bundle. */
  predicate IsRelative(word: string) {
    && '/' in word
    && word[0] !in {'/', '~', '$', '-'}
    && PathChars(word)
    && !IsUnsafeJoinTarget(word)
  }

  function RelativeRewrite(dir: string): string -> Rewrite {
    (word: string) => if IsRelative(word) then Replace(JoinPath(dir, word)) else Keep
  }

  function OnRelative(dir: string): string -> WordResult {
    ByCore(RelativeRewrite(dir))
  }

  function ResolvedRelative(command: string, dir: string): Option<string> {
    if AnyTouched(command, OnRelative(dir)) then Some(Rewritten(command, OnRelative(dir))) else None
  }

  method ResolveBundleRelativePaths(command: string, dir: string) returns (resolved: Option<string>)
    ensures resolved == ResolvedRelative(command, dir)
  {
    var refused;
    resolved, refused := RewriteWords(command, RelativeRewrite(dir));
  }

  lemma OnRelativeOf(word: string, dir: string)
    ensures var parts := SplitWord(word);
            OnRelative(dir)(word) ==
            if parts.core != "" && IsRelative(parts.core)
            then WordResult(JoinParts(parts.(core := JoinPath(dir, parts.core))), true, None)
            else WordResult(word, false, None)
  {
  }

  lemma RelativeIsSpaceFree(word: string)
    requires PathChars(word)
    ensures SpaceFree(word)
  {
    forall i | 0 <= i < |word| ensures !IsWhitespace(word[i]) {
      assert IsPathChar(word[i]);
    }
  }
}
