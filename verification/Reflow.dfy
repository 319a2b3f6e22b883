/** Reflow of Markdown paragraphs: prose lines are joined, block structure stays. */
module Reflow {
  import opened Basics
  import opened Sequences
  import opened PyText

  // ---- Kinds of lines ----

  predicate StartsWith(line: string, c: char) {
    line != "" && line[0] == c
  }

  predicate IsFence(line: string) {
    "```" <= line
  }

  /** A heading, a table row or a quote. */
  predicate IsBlock(line: string) {
    var ink := LStrip(line);
    StartsWith(ink, '#') || StartsWith(ink, '|') || StartsWith(ink, '>')
  }

  predicate IsIndented(line: string) {
    "    " <= line || StartsWith(line, '\t')
  }

  /** A list item or a rule that starts in the first column. */
  predicate StartsItem(line: string) {
    var ink := LStrip(line);
    !StartsWith(line, ' ') && !StartsWith(line, '\t') &&
    (StartsWith(ink, '-') || StartsWith(ink, '*') || StartsWith(ink, '+'))
  }

  predicate EndsParagraph(line: string) {
    IsBlank(line) || IsBlock(line) || IsFence(line) || StartsItem(line)
  }

  /** Outside a fence, a line that is kept as it is. */
  predicate IsKept(line: string) {
    IsBlank(line) || IsBlock(line) || IsIndented(line)
  }

  // ---- The reflow of a list of lines ----

  /** How many of `lines` continue the paragraph before them. */
  function Continuation(lines: seq<string>): (n: nat)
    ensures n <= |lines|
    ensures n < |lines| ==> EndsParagraph(lines[n])
    ensures forall i | 0 <= i < n :: !EndsParagraph(lines[i])
  {
    if lines == [] || EndsParagraph(lines[0]) then 0 else 1 + Continuation(lines[1..])
  }

  function Stripped(lines: seq<string>): seq<string> {
    seq(|lines|, i requires 0 <= i < |lines| => Strip(lines[i]))
  }

  function Joined(paragraph: seq<string>): string {
    Join(Stripped(paragraph), ' ')
  }

  function ReflowFrom(lines: seq<string>, inCode: bool): seq<string>
    decreases |lines|
  {
    if lines == [] then []
    else if IsFence(lines[0]) then [lines[0]] + ReflowFrom(lines[1..], !inCode)
    else if inCode || IsKept(lines[0]) then [lines[0]] + ReflowFrom(lines[1..], inCode)
    else
      var n := 1 + Continuation(lines[1..]);
      [Joined(lines[..n])] + ReflowFrom(lines[n..], false)
  }

  lemma ParagraphFirst(lines: seq<string>, n: nat)
    requires lines != [] && !IsFence(lines[0]) && !IsKept(lines[0]) && n == 1 + Continuation(lines[1..])
    ensures ReflowFrom(lines, false) == [Joined(lines[..n])] + ReflowFrom(lines[n..], false)
  {
  }

  /** Whether a fence is still open after `lines`. Each fence line toggles it. */
  function OpenAfter(lines: seq<string>, inCode: bool): bool {
    if lines == [] then inCode
    else OpenAfter(lines[1..], if IsFence(lines[0]) then !inCode else inCode)
  }

  /** How far the loop is: `result` is written, the lines from `i` on are left. */
  ghost predicate Progress(lines: seq<string>, i: nat, open: bool, result: seq<string>) {
    && i <= |lines|
    && ReflowFrom(lines, false) == result + ReflowFrom(lines[i..], open)
    && OpenAfter(lines, false) == OpenAfter(lines[i..], open)
  }

  lemma KeepLine(lines: seq<string>, i: nat, open: bool, result: seq<string>)
    requires i < |lines| && Progress(lines, i, open, result)
    requires IsFence(lines[i]) || open || IsKept(lines[i])
    ensures Progress(lines, i + 1, if IsFence(lines[i]) then !open else open, result + [lines[i]])
  {
    var after := if IsFence(lines[i]) then !open else open;
    var rest := lines[i..];
    assert rest[0] == lines[i] && rest[1..] == lines[i + 1..];
    assert ReflowFrom(rest, open) == [lines[i]] + ReflowFrom(lines[i + 1..], after);
    Associate(result, [lines[i]], ReflowFrom(lines[i + 1..], after));
  }

  lemma JoinParagraph(lines: seq<string>, i: nat, result: seq<string>, n: nat)
    requires i < |lines| && Progress(lines, i, false, result)
    requires !IsFence(lines[i]) && !IsKept(lines[i]) && n == 1 + Continuation(lines[i + 1..])
    ensures i + n <= |lines| && Progress(lines, i + n, false, result + [Joined(lines[i..i + n])])
  {
    ParagraphStep(lines, i, n);
    Associate(result, [Joined(lines[i..i + n])], ReflowFrom(lines[i + n..], false));
  }

  lemma ProgressEnds(lines: seq<string>, i: nat, open: bool, result: seq<string>)
    ensures Progress(lines, 0, false, [])
    ensures Progress(lines, i, open, result) && i >= |lines| ==>
              result == ReflowFrom(lines, false) && open == OpenAfter(lines, false)
  {
    assert lines[0..] == lines;
    assert [] + ReflowFrom(lines, false) == ReflowFrom(lines, false);
    if i == |lines| {
      assert lines[i..] == [];
    }
  }

  method ReflowLines(lines: seq<string>) returns (result: seq<string>, open: bool)
    ensures result == ReflowFrom(lines, false)
    ensures open == OpenAfter(lines, false)
  {
    result := [];
    open := false;
    var i := 0;
    ProgressEnds(lines, i, open, result);
    while i < |lines|
      invariant Progress(lines, i, open, result)
      decreases |lines| - i
    {
      var line := lines[i];
      if IsFence(line) {
        KeepLine(lines, i, open, result);
        open, result, i := !open, result + [line], i + 1;
      } else if open || IsKept(line) {
        KeepLine(lines, i, open, result);
        result, i := result + [line], i + 1;
      } else {
        i, result := AddParagraph(lines, i, result);
      }
    }
    ProgressEnds(lines, i, open, result);
  }

  /** Collect the paragraph that starts at line `start`, and write it as one line. */
  method AddParagraph(lines: seq<string>, start: nat, result: seq<string>) returns (i: nat, longer: seq<string>)
    requires start < |lines| && Progress(lines, start, false, result)
    requires !IsFence(lines[start]) && !IsKept(lines[start])
    ensures start < i && Progress(lines, i, false, longer)
  {
    var paragraph := TakeParagraph(lines, start);
    JoinParagraph(lines, start, result, |paragraph|);
    i, longer := start + |paragraph|, result + [Joined(paragraph)];
  }

  /** The paragraph that starts at line `start`. */
  method TakeParagraph(lines: seq<string>, start: nat) returns (paragraph: seq<string>)
    requires start < |lines|
    ensures |paragraph| == 1 + Continuation(lines[start + 1..])
    ensures paragraph == lines[start..start + |paragraph|]
  {
    paragraph := [lines[start]];
    var i := start + 1;
    while i < |lines| && !EndsParagraph(lines[i])
      invariant start < i <= |lines|
      invariant paragraph == lines[start..i]
      invariant Continuation(lines[start + 1..]) == i - start - 1 + Continuation(lines[i..])
    {
      assert lines[i..][0] == lines[i] && lines[i..][1..] == lines[i + 1..];
      paragraph := paragraph + [lines[i]];
      i := i + 1;
    }
    assert i < |lines| ==> lines[i..][0] == lines[i];
  }

  lemma ParagraphStep(lines: seq<string>, start: nat, n: nat)
    requires start < |lines| && !IsFence(lines[start]) && !IsKept(lines[start])
    requires n == 1 + Continuation(lines[start + 1..])
    ensures start + n <= |lines|
    ensures ReflowFrom(lines[start..], false) ==
            [Joined(lines[start..start + n])] + ReflowFrom(lines[start + n..], false)
    ensures OpenAfter(lines[start..], false) == OpenAfter(lines[start + n..], false)
  {
    var rest := lines[start..];
    assert rest[1..] == lines[start + 1..];
    assert rest[..n] == lines[start..start + n] && rest[n..] == lines[start + n..];
    forall i | 1 <= i < n ensures !IsFence(rest[i]) {
      assert rest[i] == lines[start + 1..][i - 1];
    }
    OpenSkips(rest, n, false);
  }

  lemma {:induction false} OpenSkips(lines: seq<string>, n: nat, inCode: bool)
    requires n <= |lines| && forall i | 0 <= i < n :: !IsFence(lines[i])
    ensures OpenAfter(lines, inCode) == OpenAfter(lines[n..], inCode)
    decreases n
  {
    if n == 0 {
      assert lines[0..] == lines;
    } else {
      assert lines[1..][n - 1..] == lines[n..];
      OpenSkips(lines[1..], n - 1, inCode);
    }
  }

  datatype Aborted = UnclosedFence

  function ReflowedText(text: string): Result<string, Aborted> {
    var lines := Split(DropBreaks(text));
    if OpenAfter(lines, false) then Err(UnclosedFence) else Ok(Join(ReflowFrom(lines, false), '\n'))
  }

  method ReflowMarkdown(text: string) returns (r: Result<string, Aborted>)
    ensures r == ReflowedText(text)
  {
    var lines := Split(DropBreaks(text));
    var result, open := ReflowLines(lines);
    if open {
      return Err(UnclosedFence);
    }
    r := Ok(Join(result, '\n'));
  }

  // ---- Tokens are conserved ----

  lemma {:induction false} TokensStripped(lines: seq<string>)
    ensures LineTokens(Stripped(lines)) == LineTokens(lines)
    decreases |lines|
  {
    if lines != [] {
      TokensStrip(lines[0]);
      assert Stripped(lines)[1..] == Stripped(lines[1..]);
      TokensStripped(lines[1..]);
    }
  }

  lemma TokensJoined(paragraph: seq<string>)
    ensures Tokens(Joined(paragraph)) == LineTokens(paragraph)
  {
    assert IsSpace(' ');
    TokensJoin(Stripped(paragraph), ' ');
    TokensStripped(paragraph);
  }

  lemma ParagraphTokens(lines: seq<string>, n: nat)
    requires n <= |lines|
    ensures LineTokens(lines) == Tokens(Joined(lines[..n])) + LineTokens(lines[n..])
  {
    var paragraph, rest := lines[..n], lines[n..];
    assert lines == paragraph + rest;
    TokensOfParts(paragraph, rest);
  }

  lemma TokensOfParts(paragraph: seq<string>, rest: seq<string>)
    ensures LineTokens(paragraph + rest) == Tokens(Joined(paragraph)) + LineTokens(rest)
  {
    TokensJoined(paragraph);
    LineTokensConcat(paragraph, rest);
  }

  lemma LineTokensHead(line: string, rest: seq<string>)
    ensures LineTokens([line] + rest) == Tokens(line) + LineTokens(rest)
  {
    assert ([line] + rest)[1..] == rest;
  }

  lemma {:induction false} LinesKeepTokens(lines: seq<string>, inCode: bool)
    ensures LineTokens(ReflowFrom(lines, inCode)) == LineTokens(lines)
    decreases |lines|
  {
    if lines != [] {
      if IsFence(lines[0]) {
        LinesKeepTokens(lines[1..], !inCode);
      } else if inCode || IsKept(lines[0]) {
        LinesKeepTokens(lines[1..], inCode);
      } else {
        var n := 1 + Continuation(lines[1..]);
        LinesKeepTokens(lines[n..], false);
        ParagraphTokens(lines, n);
        ParagraphFirst(lines, n);
        LineTokensHead(Joined(lines[..n]), ReflowFrom(lines[n..], false));
      }
    }
  }

  /** Reflow keeps the words of every text, in order. */
  lemma ReflowKeepsTokens(text: string)
    requires ReflowedText(text).Ok?
    ensures Tokens(ReflowedText(text).value) == Tokens(text)
  {
    var body := DropBreaks(text);
    var lines := Split(body);
    assert IsSpace('\n');
    TokensDropBreaks(text);
    JoinSplit(body);
    TokensJoin(lines, '\n');
    LinesKeepTokens(lines, false);
    TokensJoin(ReflowFrom(lines, false), '\n');
  }

  // ---- Fenced lines stay ----

  /** The fence lines and the lines between them. */
  function Fenced(lines: seq<string>, inCode: bool): seq<string> {
    if lines == [] then []
    else if IsFence(lines[0]) then [lines[0]] + Fenced(lines[1..], !inCode)
    else if inCode then [lines[0]] + Fenced(lines[1..], inCode)
    else Fenced(lines[1..], inCode)
  }

  lemma {:induction false} FencedSkips(lines: seq<string>, n: nat)
    requires n <= |lines| && forall i | 0 <= i < n :: !IsFence(lines[i])
    ensures Fenced(lines, false) == Fenced(lines[n..], false)
    decreases n
  {
    if n == 0 {
      assert lines[0..] == lines;
    } else {
      assert lines[1..][n - 1..] == lines[n..];
      FencedSkips(lines[1..], n - 1);
    }
  }

  /** Every fenced line is in the result, verbatim and in order. */
  lemma {:induction false} FencedLinesStay(lines: seq<string>, inCode: bool)
    ensures Subsequence(Fenced(lines, inCode), ReflowFrom(lines, inCode))
    decreases |lines|
  {
    if lines != [] {
      var rest := lines[1..];
      if IsFence(lines[0]) {
        FencedLinesStay(rest, !inCode);
        SameHead(lines[0], Fenced(rest, !inCode), ReflowFrom(rest, !inCode));
      } else if inCode {
        FencedLinesStay(rest, inCode);
        SameHead(lines[0], Fenced(rest, inCode), ReflowFrom(rest, inCode));
      } else if IsKept(lines[0]) {
        FencedLinesStay(rest, inCode);
        ExtraHead(Fenced(rest, inCode), lines[0], ReflowFrom(rest, inCode));
      } else {
        var n := 1 + Continuation(rest);
        FencedLinesStay(lines[n..], false);
        forall i | 0 <= i < n ensures !IsFence(lines[i]) {
          if i > 0 { assert lines[i] == rest[i - 1]; }
        }
        FencedSkips(lines, n);
        ExtraHead(Fenced(lines[n..], false), Joined(lines[..n]), ReflowFrom(lines[n..], false));
      }
    }
  }

  lemma SameHead(x: string, xs: seq<string>, ys: seq<string>)
    requires Subsequence(xs, ys)
    ensures Subsequence([x] + xs, [x] + ys)
  {
    assert ([x] + xs)[1..] == xs && ([x] + ys)[1..] == ys;
  }

  lemma ExtraHead(xs: seq<string>, y: string, ys: seq<string>)
    requires Subsequence(xs, ys)
    ensures Subsequence(xs, [y] + ys)
  {
    assert ([y] + ys)[1..] == ys;
  }
}
