/** Which words of a hook command name a script by a rooted path. */
module HookScripts {
  import opened Basics
  import opened HookCommand
  import PathResolve

  /** Top-level directories that hold system tools, never bundle scripts. */
  const SYSTEM_DIRS: seq<string> :=
    ["dev", "usr", "bin", "sbin", "etc", "tmp", "var", "proc", "sys", "opt", "System", "Library"]

  // ---- The root of a path ----

  predicate IsNameChar(c: char) {
    'a' <= c <= 'z' || 'A' <= c <= 'Z' || '0' <= c <= '9' || c == '_'
  }

  predicate IsVariableName(name: string) {
    forall i | 0 <= i < |name| :: IsNameChar(name[i])
  }

  /** How many leading characters can be part of a variable name. */
  function NameEnd(s: string): (n: nat)
    ensures n <= |s| && IsVariableName(s[..n])
    ensures n < |s| ==> !IsNameChar(s[n])
  {
    if s == "" || !IsNameChar(s[0]) then 0
    else
      assert s[..1 + NameEnd(s[1..])] == [s[0]] + s[1..][..NameEnd(s[1..])];
      1 + NameEnd(s[1..])
  }

  /** Where the first `}` stands, or the end. */
  function BraceAt(s: string): (n: nat)
    ensures n <= |s| && '}' !in s[..n]
    ensures n < |s| ==> s[n] == '}'
  {
    if s == "" || s[0] == '}' then 0
    else
      assert s[..1 + BraceAt(s[1..])] == [s[0]] + s[1..][..BraceAt(s[1..])];
      1 + BraceAt(s[1..])
  }

  function AfterSlash(s: string): Option<string> {
    if s != "" && s[0] == '/' then Some(s[1..]) else None
  }

  /** The part of a word after its root, if it has one. */
  function StripPathRoot(word: string): Option<string> {
    if "~/" <= word then Some(word[2..])
    else if "/" <= word then Some(word[1..])
    else if !("$" <= word) then None
    else if "${" <= word then
      var n := BraceAt(word[2..]);
      if 0 < n < |word| - 2 then AfterSlash(word[n + 3..]) else None
    else
      var n := NameEnd(word[1..]);
      if n > 0 then AfterSlash(word[n + 1..]) else None
  }

  /** The roots: `/`, `~/`, `$VAR/` and `${VAR}/`. */
  ghost predicate IsRoot(root: string) {
    || root == "/" || root == "~/"
    || (exists name :: name != "" && IsVariableName(name) && root == "$" + name + "/")
    || (exists name :: name != "" && '}' !in name && root == "${" + name + "}/")
  }

  ghost predicate IsRooted(word: string, rest: string) {
    exists root :: IsRoot(root) && word == root + rest
  }

  lemma {:induction false} NameEndOf(name: string, rest: string)
    requires IsVariableName(name) && (rest == "" || !IsNameChar(rest[0]))
    ensures NameEnd(name + rest) == |name|
  {
    if name == "" {
      assert name + rest == rest;
    } else {
      assert (name + rest)[1..] == name[1..] + rest;
      NameEndOf(name[1..], rest);
    }
  }

  lemma {:induction false} BraceAtOf(name: string, rest: string)
    requires '}' !in name && rest != "" && rest[0] == '}'
    ensures BraceAt(name + rest) == |name|
  {
    if name == "" {
      assert name + rest == rest;
    } else {
      assert (name + rest)[1..] == name[1..] + rest;
      BraceAtOf(name[1..], rest);
    }
  }

  lemma StripVariable(name: string, rest: string)
    requires name != "" && IsVariableName(name)
    ensures StripPathRoot("$" + name + "/" + rest) == Some(rest)
  {
    var word := "$" + name + "/" + rest;
    assert word[1..] == name + ("/" + rest);
    NameEndOf(name, "/" + rest);
    assert word[|name| + 1..] == "/" + rest;
    assert word[1] == name[0] != '{';
  }

  lemma StripBraced(name: string, rest: string)
    requires name != "" && '}' !in name
    ensures StripPathRoot("${" + name + "}/" + rest) == Some(rest)
  {
    var word := "${" + name + "}/" + rest;
    assert word[0] == '$' && word[1] == '{';
    assert word[2..] == name + ("}/" + rest);
    BraceAtOf(name, "}/" + rest);
    assert word[|name| + 3..] == "/" + rest;
    assert ("/" + rest)[1..] == rest;
  }

  lemma StrippedIsRooted(word: string, rest: string)
    requires StripPathRoot(word) == Some(rest)
    ensures IsRooted(word, rest)
  {
    if "~/" <= word {
      assert IsRoot("~/") && word == "~/" + rest;
    } else if "/" <= word {
      assert IsRoot("/") && word == "/" + rest;
    } else if "${" <= word {
      var n := BraceAt(word[2..]);
      var name := word[2..][..n];
      assert IsRoot("${" + name + "}/");
      assert word == "${" + name + "}/" + rest;
    } else {
      var n := NameEnd(word[1..]);
      var name := word[1..][..n];
      assert IsRoot("$" + name + "/");
      assert word == "$" + name + "/" + rest;
    }
  }

  /** What is stripped is exactly one of the roots. */
  lemma StripsExactlyTheRoot(word: string, rest: string)
    ensures StripPathRoot(word) == Some(rest) <==> IsRooted(word, rest)
  {
    if StripPathRoot(word) == Some(rest) {
      StrippedIsRooted(word, rest);
    }
    if IsRooted(word, rest) {
      var root :| IsRoot(root) && word == root + rest;
      if root == "/" {
        assert word[1..] == rest && word[0] == '/';
      } else if root == "~/" {
        assert word[2..] == rest && word[..2] == "~/";
      } else if name :| name != "" && IsVariableName(name) && root == "$" + name + "/" {
        StripVariable(name, rest);
      } else {
        var name :| name != "" && '}' !in name && root == "${" + name + "}/";
        StripBraced(name, rest);
      }
    }
  }

  // ---- Script paths ----

  function TopFolder(rest: string): string {
    if rest == "" || rest[0] == '/' then "" else [rest[0]] + TopFolder(rest[1..])
  }

  predicate HasDoubleSlash(word: string) {
    exists i | 0 <= i < |word| - 1 :: word[i] == '/' && word[i + 1] == '/'
  }

  /** A word with a root and path characters after it, which is no folder, no shell operator and no system
      tool. */
  predicate IsScriptPath(word: string) {
    match StripPathRoot(word)
    case None => false
    case Some(rest) =>
      && !HasDoubleSlash(word)
      && rest != "" && rest[|rest| - 1] != '/'
      && PathChars(rest)
      && !("/" <= word && TopFolder(rest) in SYSTEM_DIRS)
  }

  // ---- The components of a path ----

  function SlashFrom(s: string, i: nat): (n: nat)
    requires i <= |s|
    ensures i <= n <= |s| && (n < |s| ==> s[n] == '/')
    decreases |s| - i
  {
    if i == |s| || s[i] == '/' then i else SlashFrom(s, i + 1)
  }

  /** The texts between the slashes. */
  function Pieces(s: string): seq<string>
    decreases |s|
  {
    var n := SlashFrom(s, 0);
    if n == |s| then [s] else [s[..n]] + Pieces(s[n + 1..])
  }

  function PartOf(piece: string): PathResolve.Part {
    if piece == ".." then PathResolve.Parent
    else if piece == "." then PathResolve.Current
    else PathResolve.Name(piece)
  }

  /** Empty pieces count for nothing, and so does `.`, except where a relative path starts with it. */
  function PartsOf(pieces: seq<string>, atStart: bool): PathResolve.Path {
    if pieces == [] then []
    else if pieces[0] == "" || (pieces[0] == "." && !atStart) then PartsOf(pieces[1..], false)
    else [PartOf(pieces[0])] + PartsOf(pieces[1..], false)
  }

  /** The components of a path, as `Path::components` gives them. */
  function Components(text: string): PathResolve.Path {
    if "/" <= text then [PathResolve.Root] + PartsOf(Pieces(text), false) else PartsOf(Pieces(text), true)
  }

  /** Only a path that starts with a slash has a root, and only in front. */
  lemma RootOfComponents(text: string)
    ensures forall i | 0 <= i < |Components(text)| :: Components(text)[i].Root? <==> i == 0 && "/" <= text
  {
    NoRootInParts(Pieces(text), false);
    NoRootInParts(Pieces(text), true);
  }

  lemma {:induction false} NoRootInParts(pieces: seq<string>, atStart: bool)
    ensures forall i | 0 <= i < |PartsOf(pieces, atStart)| :: !PartsOf(pieces, atStart)[i].Root?
  {
    if pieces != [] {
      NoRootInParts(pieces[1..], false);
    }
  }
}
