/** Python text operations: strip, split, join, and the whitespace-separated tokens of a text. */
module PyText {
  import opened Sequences

  /** The characters that `str.strip` removes. */
  predicate IsSpace(c: char) {
    var u := c as int;
    9 <= u <= 13 || 28 <= u <= 32 || u == 0x85 || u == 0xA0 || u == 0x1680 || 0x2000 <= u <= 0x200A ||
    u == 0x2028 || u == 0x2029 || u == 0x202F || u == 0x205F || u == 0x3000
  }

  function LStrip(s: string): string {
    if s != "" && IsSpace(s[0]) then LStrip(s[1..]) else s
  }

  function RStrip(s: string): string {
    if s != "" && IsSpace(s[|s| - 1]) then RStrip(s[..|s| - 1]) else s
  }

  function Strip(s: string): string {
    RStrip(LStrip(s))
  }

  predicate IsBlank(s: string) {
    LStrip(s) == ""
  }

  /** Starts and ends with a visible character. */
  predicate IsTrimmed(s: string) {
    s != "" && !IsSpace(s[0]) && !IsSpace(s[|s| - 1])
  }

  lemma {:induction false} LStripLaws(s: string)
    ensures LStrip(s) != "" ==> !IsSpace(LStrip(s)[0]) && LStrip(s)[|LStrip(s)| - 1] == s[|s| - 1]
    ensures |LStrip(s)| <= |s|
  {
    if s != "" && IsSpace(s[0]) {
      LStripLaws(s[1..]);
      if LStrip(s) != "" {
        assert s[1..][|s| - 2] == s[|s| - 1];
      }
    }
  }

  lemma {:induction false} RStripLaws(s: string)
    requires s != "" && !IsSpace(s[0])
    ensures IsTrimmed(RStrip(s)) && RStrip(s)[0] == s[0] && RStrip(s) <= s
  {
    if IsSpace(s[|s| - 1]) {
      assert s[..|s| - 1][0] == s[0];
      RStripLaws(s[..|s| - 1]);
    }
  }

  lemma StripLaws(s: string)
    requires !IsBlank(s)
    ensures IsTrimmed(Strip(s)) && Strip(s)[0] == LStrip(s)[0] && Strip(s) <= LStrip(s)
  {
    LStripLaws(s);
    RStripLaws(LStrip(s));
  }

  lemma TrimmedIsStripped(s: string)
    requires IsTrimmed(s)
    ensures Strip(s) == s && LStrip(s) == s && !IsBlank(s)
  {
  }

  // ---- Tokens ----

  /** Where the visible run at the start of `s` ends. */
  function InkEnd(s: string): (n: nat)
    ensures n <= |s|
    ensures s != "" && !IsSpace(s[0]) ==> n > 0
  {
    if s == "" || IsSpace(s[0]) then 0 else 1 + InkEnd(s[1..])
  }

  /** The whitespace-separated words of a text, in order. */
  function Tokens(s: string): seq<string>
    decreases |s|
  {
    if s == "" then []
    else if IsSpace(s[0]) then Tokens(s[1..])
    else [s[..InkEnd(s)]] + Tokens(s[InkEnd(s)..])
  }

  lemma {:induction false} InkEndStops(a: string, space: char, b: string)
    requires IsSpace(space)
    ensures InkEnd(a + ([space] + b)) == InkEnd(a)
  {
    if a == "" {
      assert a + ([space] + b) == [space] + b;
    } else if !IsSpace(a[0]) {
      assert (a + ([space] + b))[1..] == a[1..] + ([space] + b);
      InkEndStops(a[1..], space, b);
    }
  }

  lemma SliceOfConcat(a: string, b: string, n: nat)
    requires n <= |a|
    ensures (a + b)[..n] == a[..n] && (a + b)[n..] == a[n..] + b
  {
  }

  /** Whitespace between two texts separates their tokens. */
  lemma {:induction false} TokensConcat(a: string, space: char, b: string)
    requires IsSpace(space)
    ensures Tokens(a + ([space] + b)) == Tokens(a) + Tokens(b)
    decreases |a|
  {
    var s := a + ([space] + b);
    if a == "" {
      assert s == [space] + b && s[1..] == b;
    } else if IsSpace(a[0]) {
      assert s[1..] == a[1..] + ([space] + b);
      TokensConcat(a[1..], space, b);
    } else {
      var n := InkEnd(a);
      InkEndStops(a, space, b);
      SliceOfConcat(a, [space] + b, n);
      TokensConcat(a[n..], space, b);
    }
  }

  lemma {:induction false} TokensLStrip(s: string)
    ensures Tokens(LStrip(s)) == Tokens(s)
  {
    if s != "" && IsSpace(s[0]) {
      TokensLStrip(s[1..]);
    }
  }

  lemma {:induction false} TokensRStrip(s: string)
    ensures Tokens(RStrip(s)) == Tokens(s)
  {
    if s != "" && IsSpace(s[|s| - 1]) {
      var init, last := s[..|s| - 1], s[|s| - 1];
      TokensRStrip(init);
      TokensConcat(init, last, "");
      assert s == init + ([last] + "");
    }
  }

  lemma TokensStrip(s: string)
    ensures Tokens(Strip(s)) == Tokens(s)
  {
    TokensLStrip(s);
    TokensRStrip(LStrip(s));
  }

  // ---- Lines ----

  function Join(lines: seq<string>, sep: char): string {
    if lines == [] then ""
    else if |lines| == 1 then lines[0]
    else lines[0] + ([sep] + Join(lines[1..], sep))
  }

  function LineTokens(lines: seq<string>): seq<string> {
    if lines == [] then [] else Tokens(lines[0]) + LineTokens(lines[1..])
  }

  lemma {:induction false} TokensJoin(lines: seq<string>, sep: char)
    requires IsSpace(sep)
    ensures Tokens(Join(lines, sep)) == LineTokens(lines)
  {
    if |lines| == 1 {
      assert lines[1..] == [];
      assert Tokens(lines[0]) + [] == Tokens(lines[0]);
    } else if |lines| > 1 {
      TokensJoin(lines[1..], sep);
      TokensConcat(lines[0], sep, Join(lines[1..], sep));
    }
  }

  lemma {:induction false} LineTokensConcat(a: seq<string>, b: seq<string>)
    ensures LineTokens(a + b) == LineTokens(a) + LineTokens(b)
  {
    if a == [] {
      assert a + b == b;
    } else {
      assert (a + b)[1..] == a[1..] + b;
      LineTokensConcat(a[1..], b);
    }
  }

  /** No line holds a line break. */
  predicate AreLines(lines: seq<string>) {
    forall i | 0 <= i < |lines| :: '\n' !in lines[i]
  }

  function BreakFrom(s: string, i: nat): (n: nat)
    requires i <= |s|
    ensures i <= n <= |s| && (n < |s| ==> s[n] == '\n')
    ensures forall k | i <= k < n :: s[k] != '\n'
    decreases |s| - i
  {
    if i == |s| || s[i] == '\n' then i else BreakFrom(s, i + 1)
  }

  /** Where the first line ends. */
  function BreakAt(s: string): (n: nat)
    ensures n <= |s| && (n < |s| ==> s[n] == '\n')
    ensures forall k | 0 <= k < n :: s[k] != '\n'
  {
    BreakFrom(s, 0)
  }

  /** `s.split("\n")` */
  function Split(s: string): (lines: seq<string>)
    ensures lines != [] && AreLines(lines)
    decreases |s|
  {
    var n := BreakAt(s);
    if n == |s| then
      assert s[..n] == s;
      [s]
    else [s[..n]] + Split(s[n + 1..])
  }

  lemma BreakAtOf(line: string, rest: string)
    requires '\n' !in line && (rest == "" || rest[0] == '\n')
    ensures BreakAt(line + rest) == |line|
  {
    var s := line + rest;
    assert forall k | 0 <= k < |line| :: s[k] == line[k];
    assert rest != "" ==> s[|line|] == rest[0];
  }

  lemma JoinFrom(line: string, lines: seq<string>, sep: char)
    requires lines != []
    ensures Join([line] + lines, sep) == line + ([sep] + Join(lines, sep))
  {
    assert ([line] + lines)[1..] == lines;
  }

  lemma {:induction false} JoinSplit(s: string)
    ensures Join(Split(s), '\n') == s
    decreases |s|
  {
    if BreakAt(s) < |s| {
      var line, rest := FirstLineAndRest(s);
      JoinSplit(rest);
      JoinFrom(line, Split(rest), '\n');
    }
  }

  lemma FirstLineAndRest(s: string) returns (line: string, rest: string)
    requires BreakAt(s) < |s|
    ensures s == line + (['\n'] + rest) && Split(s) == [line] + Split(rest)
  {
    var n := BreakAt(s);
    line, rest := s[..n], s[n + 1..];
    CutAt(s, n);
  }

  lemma {:induction false} SplitJoin(lines: seq<string>)
    requires lines != [] && AreLines(lines)
    ensures Split(Join(lines, '\n')) == lines
    decreases |lines|
  {
    if |lines| == 1 {
      BreakAtOf(lines[0], "");
      assert lines[0] + "" == lines[0];
    } else {
      var rest := Join(lines[1..], '\n');
      SplitJoin(lines[1..]);
      BreakAtOf(lines[0], ['\n'] + rest);
      var s := lines[0] + (['\n'] + rest);
      assert s[..|lines[0]|] == lines[0] && s[|lines[0]| + 1..] == rest;
    }
  }

  lemma JoinDetermines(xs: seq<string>, ys: seq<string>)
    requires xs != [] && ys != [] && AreLines(xs) && AreLines(ys)
    ensures Join(xs, '\n') == Join(ys, '\n') <==> xs == ys
  {
    SplitJoin(xs);
    SplitJoin(ys);
  }

  /** `s.rstrip("\n")` */
  function DropBreaks(s: string): string {
    if s != "" && s[|s| - 1] == '\n' then DropBreaks(s[..|s| - 1]) else s
  }

  lemma {:induction false} TokensDropBreaks(s: string)
    ensures Tokens(DropBreaks(s)) == Tokens(s)
  {
    if s != "" && s[|s| - 1] == '\n' {
      var init := s[..|s| - 1];
      TokensDropBreaks(init);
      TokensConcat(init, '\n', "");
      assert s == init + (['\n'] + "");
    }
  }

  lemma {:induction false} DropBreaksEnds(s: string)
    ensures DropBreaks(s) != "" ==> DropBreaks(s)[|DropBreaks(s)| - 1] != '\n'
  {
    if s != "" && s[|s| - 1] == '\n' {
      DropBreaksEnds(s[..|s| - 1]);
    }
  }

  /** The last line of a text that does not end with a break is not empty. */
  lemma {:induction false} LastLineOf(s: string)
    requires s != "" && s[|s| - 1] != '\n'
    ensures Split(s)[|Split(s)| - 1] != ""
    decreases |s|
  {
    var n := BreakAt(s);
    if n < |s| {
      assert s[n + 1..] != "";
      assert s[n + 1..][|s| - n - 2] == s[|s| - 1];
      LastLineOf(s[n + 1..]);
    }
  }

  lemma {:induction false} JoinEnds(lines: seq<string>)
    requires lines != [] && AreLines(lines) && lines[|lines| - 1] != ""
    ensures var s := Join(lines, '\n'); s != "" && s[|s| - 1] != '\n'
    decreases |lines|
  {
    if |lines| == 1 {
      assert lines[0][|lines[0]| - 1] in lines[0];
    } else {
      JoinEnds(lines[1..]);
    }
  }
}
