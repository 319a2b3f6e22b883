/** Reflow as a machine that reads one line at a time, told by the characters of each line. */
module ReflowByLine {
  import opened Basics
  import opened Sequences
  import opened PyText
  import opened Reflow

  // ---- Lines by their characters ----

  /** The first visible character stands at `k`. */
  predicate InkAt(line: string, k: nat) {
    k < |line| && !IsSpace(line[k]) && forall i | 0 <= i < k :: IsSpace(line[i])
  }

  /** The first visible character is one of `marks`. */
  predicate FirstInkIn(line: string, marks: string) {
    exists k: nat | k < |line| :: InkAt(line, k) && line[k] in marks
  }

  predicate AllSpace(line: string) {
    forall i | 0 <= i < |line| :: IsSpace(line[i])
  }

  /** Three backquotes in the first columns. */
  predicate IsFenceLine(line: string) {
    |line| >= 3 && line[0] == '`' && line[1] == '`' && line[2] == '`'
  }

  /** A blank line, a heading, a table row or a quote. */
  predicate StandsAlone(line: string) {
    AllSpace(line) || FirstInkIn(line, "#|>")
  }

  /** A list item or a rule. */
  predicate IsItemLine(line: string) {
    line != "" && line[0] != ' ' && line[0] != '\t' && FirstInkIn(line, "-*+")
  }

  predicate IsCodeLine(line: string) {
    (|line| >= 4 && line[0] == ' ' && line[1] == ' ' && line[2] == ' ' && line[3] == ' ') ||
    (line != "" && line[0] == '\t')
  }

  // ---- The machine ----

  function Flushed(paragraph: Option<string>): seq<string> {
    if paragraph.Some? then [paragraph.value] else []
  }

  function Longer(paragraph: Option<string>, text: string): Option<string> {
    Some(if paragraph.Some? then paragraph.value + " " + text else text)
  }

  /** Read one line at a time. `paragraph` is the paragraph that is open, if there is one. */
  function ByLine(lines: seq<string>, inCode: bool, paragraph: Option<string>): seq<string> {
    if lines == [] then Flushed(paragraph)
    else
      var line, rest := lines[0], lines[1..];
      if IsFenceLine(line) then Flushed(paragraph) + [line] + ByLine(rest, !inCode, None)
      else if inCode then Flushed(paragraph) + [line] + ByLine(rest, true, None)
      else if StandsAlone(line) then Flushed(paragraph) + [line] + ByLine(rest, false, None)
      else if IsItemLine(line) then Flushed(paragraph) + ByLine(rest, false, Some(Strip(line)))
      else if paragraph.None? && IsCodeLine(line) then [line] + ByLine(rest, false, None)
      else ByLine(rest, false, Longer(paragraph, Strip(line)))
  }

  // ---- The kinds agree ----

  lemma {:induction false} LStripIs(line: string) returns (k: nat)
    ensures k <= |line| && LStrip(line) == line[k..] && (k < |line| ==> !IsSpace(line[k]))
    ensures forall i | 0 <= i < k :: IsSpace(line[i])
  {
    if line != "" && IsSpace(line[0]) {
      var n := LStripIs(line[1..]);
      k := n + 1;
      assert line[1..][n..] == line[k..];
      forall i | 0 <= i < k ensures IsSpace(line[i]) {
        assert i > 0 ==> line[i] == line[1..][i - 1];
      }
    } else {
      k := 0;
    }
  }

  lemma RStripIs(line: string) returns (k: nat)
    ensures k <= |line| && RStrip(line) == line[..k] && (k > 0 ==> !IsSpace(line[k - 1]))
    ensures forall i | k <= i < |line| :: IsSpace(line[i])
  {
    if line != "" && IsSpace(line[|line| - 1]) {
      k := RStripIs(line[..|line| - 1]);
      assert line[..|line| - 1][..k] == line[..k];
    } else {
      k := |line|;
    }
  }

  /** What stripping removes is whitespace at both ends, all of it. */
  lemma StripIs(line: string) returns (before: string, after: string)
    ensures line == before + Strip(line) + after && AllSpace(before) && AllSpace(after)
    ensures Strip(line) == "" || (!IsSpace(Strip(line)[0]) && !IsSpace(Strip(line)[|Strip(line)| - 1]))
  {
    var k := LStripIs(line);
    var ink := line[k..];
    var n := RStripIs(ink);
    before, after := line[..k], ink[n..];
    assert ink == ink[..n] + ink[n..] && line == line[..k] + ink;
    assert n > 0 ==> ink[..n][0] == line[k];
  }

  lemma FirstInk(line: string, marks: string)
    ensures FirstInkIn(line, marks) <==> LStrip(line) != "" && LStrip(line)[0] in marks
    ensures AllSpace(line) <==> IsBlank(line)
  {
    var k := LStripIs(line);
    if k < |line| {
      assert InkAt(line, k) && line[k..][0] == line[k];
    }
    if i: nat :| i < |line| && InkAt(line, i) && line[i] in marks {
      assert i == k;
    }
  }

  lemma KindsAgree(line: string)
    ensures IsFence(line) <==> IsFenceLine(line)
    ensures IsBlank(line) || IsBlock(line) <==> StandsAlone(line)
    ensures StartsItem(line) <==> IsItemLine(line)
    ensures IsIndented(line) <==> IsCodeLine(line)
  {
    FirstInk(line, "#|>");
    FirstInk(line, "-*+");
    assert IsItemLine(line) ==> line != "";
    assert StartsItem(line) ==> line != "";
  }

  // ---- The machine agrees with the two nested loops ----

  /** What the continuation lines add to a paragraph. */
  function Tail(lines: seq<string>): string {
    if lines == [] then "" else " " + Strip(lines[0]) + Tail(lines[1..])
  }

  lemma {:induction false} JoinedIs(first: string, lines: seq<string>)
    ensures Joined([first] + lines) == Strip(first) + Tail(lines)
    decreases |lines|
  {
    var all := [first] + lines;
    if lines == [] {
      assert Stripped(all) == [Strip(first)];
    } else {
      assert lines == [lines[0]] + lines[1..];
      JoinedIs(lines[0], lines[1..]);
      assert Stripped(all) == [Strip(first)] + Stripped(lines);
      JoinFrom(Strip(first), Stripped(lines), ' ');
    }
  }

  lemma ContinuationStep(lines: seq<string>, n: nat)
    requires lines != [] && !EndsParagraph(lines[0]) && n == Continuation(lines[1..])
    ensures Continuation(lines) == n + 1
    ensures lines[..n + 1] == [lines[0]] + lines[1..][..n] && lines[n + 1..] == lines[1..][n..]
    ensures Tail(lines[..n + 1]) == " " + Strip(lines[0]) + Tail(lines[1..][..n])
  {
    assert lines[..n + 1][1..] == lines[1..][..n];
  }

  /** A line that ends the paragraph writes it first. */
  lemma FlushFirst(lines: seq<string>, p: string)
    requires lines == [] || EndsParagraph(lines[0])
    ensures ByLine(lines, false, Some(p)) == [p] + ByLine(lines, false, None)
  {
    if lines != [] {
      KindsAgree(lines[0]);
      var line, rest := lines[0], lines[1..];
      Associate([p], [line], ByLine(rest, !false, None));
      Associate([p], [line], ByLine(rest, false, None));
      assert [] + [line] == [line];
      assert [] + ByLine(rest, false, Some(Strip(line))) == ByLine(rest, false, Some(Strip(line)));
    }
  }

  lemma {:induction false} ByLineContinues(lines: seq<string>, p: string)
    ensures var n := Continuation(lines);
            ByLine(lines, false, Some(p)) == [p + Tail(lines[..n])] + ReflowFrom(lines[n..], false)
    decreases |lines|, 1
  {
    if lines == [] || EndsParagraph(lines[0]) {
      FlushFirst(lines, p);
      ByLineAgrees(lines, false);
      assert lines[..0] == [] && lines[0..] == lines && p + "" == p;
    } else {
      var text, rest := Strip(lines[0]), lines[1..];
      var n := Continuation(rest);
      KindsAgree(lines[0]);
      ByLineContinues(rest, p + " " + text);
      ContinuationStep(lines, n);
      Associate(p, " " + text, Tail(rest[..n]));
      Associate(p, " ", text);
    }
  }

  lemma HeadAndRest(lines: seq<string>, n: nat)
    requires n < |lines|
    ensures lines[..n + 1] == [lines[0]] + lines[1..][..n] && lines[n + 1..] == lines[1..][n..]
  {
  }

  lemma ParagraphOf(lines: seq<string>)
    requires lines != [] && !IsFence(lines[0]) && !IsKept(lines[0])
    ensures var n := Continuation(lines[1..]);
            ReflowFrom(lines, false) ==
            [Strip(lines[0]) + Tail(lines[1..][..n])] + ReflowFrom(lines[1..][n..], false)
  {
    var n := Continuation(lines[1..]);
    ParagraphFirst(lines, n + 1);
    HeadAndRest(lines, n);
    JoinedIs(lines[0], lines[1..][..n]);
  }

  /** Reading one line at a time gives the same lines. */
  lemma {:induction false} ByLineAgrees(lines: seq<string>, inCode: bool)
    ensures ByLine(lines, inCode, None) == ReflowFrom(lines, inCode)
    decreases |lines|, 0
  {
    if lines != [] {
      var line, rest := lines[0], lines[1..];
      KindsAgree(line);
      assert [] + [line] == [line];
      if IsFence(line) {
        ByLineAgrees(rest, !inCode);
      } else if inCode || IsKept(line) {
        ByLineAgrees(rest, inCode);
      } else {
        ParagraphOf(lines);
        ByLineContinues(rest, Strip(line));
        assert [] + ByLine(rest, false, Some(Strip(line))) == ByLine(rest, false, Some(Strip(line)));
      }
    }
  }

  // ---- What stays on its own line ----

  /** Fences, the lines between them, and outside them the blank lines, headings, table rows and quotes. */
  function Standing(lines: seq<string>, inCode: bool): seq<string> {
    if lines == [] then []
    else
      var line, rest := lines[0], lines[1..];
      if IsFenceLine(line) then [line] + Standing(rest, !inCode)
      else if inCode || StandsAlone(line) then [line] + Standing(rest, inCode)
      else Standing(rest, inCode)
  }

  lemma FlushedFirst(paragraph: Option<string>, line: string, xs: seq<string>, ys: seq<string>)
    requires Subsequence(xs, ys)
    ensures Subsequence([line] + xs, Flushed(paragraph) + [line] + ys)
    ensures Subsequence(xs, Flushed(paragraph) + ys)
  {
    SameHead(line, xs, ys);
    if paragraph.Some? {
      ExtraHead([line] + xs, paragraph.value, [line] + ys);
      ExtraHead(xs, paragraph.value, ys);
      Associate([paragraph.value], [line], ys);
    } else {
      assert [] + [line] == [line] && [] + ys == ys;
    }
  }

  lemma {:induction false} StandingStay(lines: seq<string>, inCode: bool, paragraph: Option<string>)
    ensures Subsequence(Standing(lines, inCode), ByLine(lines, inCode, paragraph))
  {
    if lines != [] {
      var line, rest := lines[0], lines[1..];
      if IsFenceLine(line) {
        StandingStay(rest, !inCode, None);
        FlushedFirst(paragraph, line, Standing(rest, !inCode), ByLine(rest, !inCode, None));
      } else if inCode || StandsAlone(line) {
        StandingStay(rest, inCode, None);
        FlushedFirst(paragraph, line, Standing(rest, inCode), ByLine(rest, inCode, None));
      } else if IsItemLine(line) {
        StandingStay(rest, false, Some(Strip(line)));
        FlushedFirst(paragraph, line, Standing(rest, false), ByLine(rest, false, Some(Strip(line))));
      } else if paragraph.None? && IsCodeLine(line) {
        StandingStay(rest, false, None);
        ExtraHead(Standing(rest, false), line, ByLine(rest, false, None));
      } else {
        StandingStay(rest, false, Longer(paragraph, Strip(line)));
      }
    }
  }

  /** They are all in the result, verbatim and in order. */
  lemma StandingLinesStay(lines: seq<string>, inCode: bool)
    ensures Subsequence(Standing(lines, inCode), ReflowFrom(lines, inCode))
  {
    StandingStay(lines, inCode, None);
    ByLineAgrees(lines, inCode);
  }

  /** What a line of the result must be: a line of the input, or a line that starts with this text. */
  datatype Anchor = Whole(line: string) | Start(text: string)

  predicate Fits(anchor: Anchor, line: string) {
    match anchor
    case Whole(whole) => line == whole
    case Start(text) => line == text || text + " " <= line
  }

  ghost predicate FitAll(anchors: seq<Anchor>, lines: seq<string>) {
    |anchors| == |lines| && forall i | 0 <= i < |lines| :: Fits(anchors[i], lines[i])
  }

  /** The lines that the result has. `open` tells whether the line before belongs to a paragraph. An item always
      starts a line. So does the first line of a paragraph, and an indented line after no paragraph stays. */
  function Anchors(lines: seq<string>, inCode: bool, open: bool): seq<Anchor> {
    if lines == [] then []
    else
      var line, rest := lines[0], lines[1..];
      if IsFenceLine(line) then [Whole(line)] + Anchors(rest, !inCode, false)
      else if inCode || StandsAlone(line) || (!open && !IsItemLine(line) && IsCodeLine(line)) then
        [Whole(line)] + Anchors(rest, inCode, false)
      else if IsItemLine(line) || !open then [Start(Strip(line))] + Anchors(rest, false, true)
      else Anchors(rest, false, true)
  }

  function FlushedAnchor(paragraph: Option<string>): seq<Anchor> {
    if paragraph.Some? then [Start(paragraph.value)] else []
  }

  lemma FitFlushed(paragraph: Option<string>, anchors: seq<Anchor>, lines: seq<string>)
    requires FitAll(anchors, lines)
    ensures FitAll(FlushedAnchor(paragraph) + anchors, Flushed(paragraph) + lines)
  {
  }

  lemma FitWhole(paragraph: Option<string>, line: string, anchors: seq<Anchor>, lines: seq<string>)
    requires FitAll(anchors, lines)
    ensures FitAll(FlushedAnchor(paragraph) + ([Whole(line)] + anchors), Flushed(paragraph) + [line] + lines)
  {
    FitFlushed(paragraph, [Whole(line)] + anchors, [line] + lines);
    Associate(Flushed(paragraph), [line], lines);
  }

  lemma FitShorter(p: string, text: string, anchors: seq<Anchor>, lines: seq<string>)
    requires FitAll([Start(p + " " + text)] + anchors, lines)
    ensures FitAll([Start(p)] + anchors, lines)
  {
    var long, short := [Start(p + " " + text)] + anchors, [Start(p)] + anchors;
    assert Fits(long[0], lines[0]);
    PrefixOfStart(p, text, lines[0]);
    assert forall i | 1 <= i < |lines| :: short[i] == long[i];
  }

  lemma PrefixOfStart(p: string, text: string, line: string)
    requires Fits(Start(p + " " + text), line)
    ensures Fits(Start(p), line)
  {
    assert p + " " <= p + " " + text;
  }

  predicate IsWhole(line: string, inCode: bool) {
    IsFenceLine(line) || inCode || StandsAlone(line)
  }

  function CodeAfter(line: string, inCode: bool): bool {
    if IsFenceLine(line) then !inCode else inCode
  }

  lemma WholeStep(lines: seq<string>, inCode: bool, paragraph: Option<string>)
    requires lines != [] && IsWhole(lines[0], inCode)
    ensures var line, rest, after := lines[0], lines[1..], CodeAfter(lines[0], inCode);
            && ByLine(lines, inCode, paragraph) == Flushed(paragraph) + [line] + ByLine(rest, after, None)
            && Anchors(lines, inCode, paragraph.Some?) == [Whole(line)] + Anchors(rest, after, false)
  {
  }

  lemma ItemStep(lines: seq<string>, paragraph: Option<string>)
    requires lines != [] && !IsWhole(lines[0], false) && IsItemLine(lines[0])
    ensures var text, rest := Strip(lines[0]), lines[1..];
            && ByLine(lines, false, paragraph) == Flushed(paragraph) + ByLine(rest, false, Some(text))
            && Anchors(lines, false, paragraph.Some?) == [Start(text)] + Anchors(rest, false, true)
  {
  }

  lemma CodeStep(lines: seq<string>)
    requires lines != [] && !IsWhole(lines[0], false) && !IsItemLine(lines[0]) && IsCodeLine(lines[0])
    ensures var line, rest := lines[0], lines[1..];
            && ByLine(lines, false, None) == [line] + ByLine(rest, false, None)
            && Anchors(lines, false, false) == [Whole(line)] + Anchors(rest, false, false)
  {
  }

  lemma ProseStep(lines: seq<string>, paragraph: Option<string>)
    requires lines != [] && !IsWhole(lines[0], false) && !IsItemLine(lines[0])
    requires paragraph.Some? || !IsCodeLine(lines[0])
    ensures var text, rest := Strip(lines[0]), lines[1..];
            && ByLine(lines, false, paragraph) == ByLine(rest, false, Longer(paragraph, text))
            && FlushedAnchor(paragraph) + Anchors(lines, false, paragraph.Some?) ==
               (if paragraph.Some? then [Start(paragraph.value)] else [Start(text)]) + Anchors(rest, false, true)
  {
  }

  lemma {:induction false} AnchorsFit(lines: seq<string>, inCode: bool, paragraph: Option<string>)
    ensures FitAll(FlushedAnchor(paragraph) + Anchors(lines, inCode, paragraph.Some?), ByLine(lines, inCode, paragraph))
  {
    if lines == [] {
      FitFlushed(paragraph, [], []);
      assert Flushed(paragraph) + [] == Flushed(paragraph);
    } else if IsWhole(lines[0], inCode) {
      var after := CodeAfter(lines[0], inCode);
      WholeStep(lines, inCode, paragraph);
      AnchorsFit(lines[1..], after, None);
      NoFlush(lines[1..], after);
      FitWhole(paragraph, lines[0], Anchors(lines[1..], after, false), ByLine(lines[1..], after, None));
    } else if IsItemLine(lines[0]) {
      ItemStep(lines, paragraph);
      AnchorsFit(lines[1..], false, Some(Strip(lines[0])));
      FitFlushed(paragraph, Anchors(lines, false, paragraph.Some?), ByLine(lines[1..], false, Some(Strip(lines[0]))));
    } else if paragraph.None? && IsCodeLine(lines[0]) {
      CodeStep(lines);
      AnchorsFit(lines[1..], false, None);
      NoFlush(lines[1..], false);
      NoFlush(lines, false);
    } else {
      ProseStep(lines, paragraph);
      AnchorsFit(lines[1..], false, Longer(paragraph, Strip(lines[0])));
      if paragraph.Some? {
        FitShorter(paragraph.value, Strip(lines[0]), Anchors(lines[1..], false, true), ByLine(lines, false, paragraph));
      }
    }
  }

  lemma NoFlush(lines: seq<string>, inCode: bool)
    ensures FlushedAnchor(None) + Anchors(lines, inCode, false) == Anchors(lines, inCode, false)
  {
  }

  /** The result has these lines, in this order, and no others. */
  lemma ResultLines(lines: seq<string>, inCode: bool)
    ensures FitAll(Anchors(lines, inCode, false), ReflowFrom(lines, inCode))
  {
    AnchorsFit(lines, inCode, None);
    ByLineAgrees(lines, inCode);
    NoFlush(lines, inCode);
  }

  // ---- What is joined ----

  /** Whether line `i` is inside a fence. */
  function InCodeAt(lines: seq<string>, inCode: bool, i: nat): bool
    requires i <= |lines|
  {
    if i == 0 then inCode
    else InCodeAt(lines[1..], CodeAfter(lines[0], inCode), i - 1)
  }

  predicate IsProse(line: string) {
    !IsFenceLine(line) && !StandsAlone(line) && !IsItemLine(line) && !IsCodeLine(line)
  }

  ghost predicate Contains(line: string, text: string) {
    exists before, after :: line == before + text + after
  }

  ghost predicate SomeContains(lines: seq<string>, text: string) {
    exists k | 0 <= k < |lines| :: Contains(lines[k], text)
  }

  lemma SomeContainsLater(front: seq<string>, lines: seq<string>, text: string)
    requires SomeContains(lines, text)
    ensures SomeContains(front + lines, text)
  {
    var k :| 0 <= k < |lines| && Contains(lines[k], text);
    assert (front + lines)[|front| + k] == lines[k];
  }

  /** An open paragraph starts the next line of the result. */
  lemma OpenParagraphIsWritten(lines: seq<string>, before: string, text: string)
    ensures SomeContains(ByLine(lines, false, Some(before + text)), text)
  {
    var p := before + text;
    AnchorsFit(lines, false, Some(p));
    var result := ByLine(lines, false, Some(p));
    var anchors := [Start(p)] + Anchors(lines, false, true);
    assert anchors[0] == Start(p) && Fits(anchors[0], result[0]);
    var after := result[0][|p|..];
    assert result[0] == before + text + after;
  }

  lemma LongerTwice(paragraph: Option<string>, x: string, y: string) returns (before: string)
    ensures Longer(Longer(paragraph, x), y) == Some(before + (x + " " + y))
  {
    before := if paragraph.Some? then paragraph.value + " " else "";
    var first := Longer(paragraph, x).value;
    assert first == before + x;
    assert before + x + " " + y == before + (x + " " + y);
    assert Longer(Some(first), y) == Some(first + " " + y);
  }

  lemma TwoLinesJoin(lines: seq<string>, paragraph: Option<string>)
    requires |lines| >= 2 && IsProse(lines[0]) && IsProse(lines[1])
    ensures SomeContains(ByLine(lines, false, paragraph), Strip(lines[0]) + " " + Strip(lines[1]))
  {
    var x, y := Strip(lines[0]), Strip(lines[1]);
    ProseStep(lines, paragraph);
    ProseStep(lines[1..], Longer(paragraph, x));
    var before := LongerTwice(paragraph, x, y);
    OpenParagraphIsWritten(lines[1..][1..], before, x + " " + y);
  }

  lemma {:induction false} ProseJoins(lines: seq<string>, inCode: bool, paragraph: Option<string>, i: nat)
    requires i + 1 < |lines| && !InCodeAt(lines, inCode, i) && IsProse(lines[i]) && IsProse(lines[i + 1])
    ensures SomeContains(ByLine(lines, inCode, paragraph), Strip(lines[i]) + " " + Strip(lines[i + 1]))
    decreases i
  {
    if i == 0 {
      TwoLinesJoin(lines, paragraph);
    } else {
      var line, rest := lines[0], lines[1..];
      var text := Strip(lines[i]) + " " + Strip(lines[i + 1]);
      assert rest[i - 1] == lines[i] && rest[i] == lines[i + 1];
      var after := CodeAfter(line, inCode);
      var next := if IsFenceLine(line) || inCode || StandsAlone(line) then None
                  else if IsItemLine(line) then Some(Strip(line))
                  else if paragraph.None? && IsCodeLine(line) then None
                  else Longer(paragraph, Strip(line));
      ProseJoins(rest, after, next, i - 1);
      SomeContainsLater(Flushed(paragraph) + [line], ByLine(rest, after, next), text);
      SomeContainsLater(Flushed(paragraph), ByLine(rest, after, next), text);
      SomeContainsLater([line], ByLine(rest, after, next), text);
    }
  }

  /** Two prose lines in a row land on one line of the result. */
  lemma ProseLinesJoin(lines: seq<string>, inCode: bool, i: nat)
    requires i + 1 < |lines| && !InCodeAt(lines, inCode, i) && IsProse(lines[i]) && IsProse(lines[i + 1])
    ensures SomeContains(ReflowFrom(lines, inCode), Strip(lines[i]) + " " + Strip(lines[i + 1]))
  {
    ProseJoins(lines, inCode, None, i);
    ByLineAgrees(lines, inCode);
  }

  /** The rows of a table stay apart. */
  lemma TableRowsStay()
    ensures ReflowFrom(["|a|", "|1|"], false) == ["|a|", "|1|"]
  {
    var lines := ["|a|", "|1|"];
    assert InkAt(lines[0], 0) && InkAt(lines[1], 0);
    assert StandsAlone(lines[0]) && StandsAlone(lines[1]);
    assert lines[1..] == ["|1|"] && ["|1|"][1..] == [];
    ByLineAgrees(lines, false);
    assert ByLine(["|1|"], false, None) == ["|1|"];
  }

  // ---- The whole text ----

  ghost predicate AllBreaks(s: string) {
    forall i | 0 <= i < |s| :: s[i] == '\n'
  }

  lemma {:induction false} BreaksGo(body: string, breaks: string)
    requires AllBreaks(breaks) && (body == "" || body[|body| - 1] != '\n')
    ensures DropBreaks(body + breaks) == body
    decreases |breaks|
  {
    var s := body + breaks;
    if breaks == "" {
      assert s == body;
    } else {
      var less := breaks[..|breaks| - 1];
      assert s[|s| - 1] == '\n' && s[..|s| - 1] == body + less;
      BreaksGo(body, less);
    }
  }

  lemma {:induction false} OpenIsInCode(lines: seq<string>, inCode: bool)
    ensures OpenAfter(lines, inCode) == InCodeAt(lines, inCode, |lines|)
  {
    if lines != [] {
      KindsAgree(lines[0]);
      OpenIsInCode(lines[1..], CodeAfter(lines[0], inCode));
    }
  }

  /** The lines of a text and the line breaks after them: the machine's lines with a break between, or an error when
      a fence is left open. */
  lemma ReflowOfLines(lines: seq<string>, breaks: string)
    requires lines != [] && (forall i | 0 <= i < |lines| :: '\n' !in lines[i])
    requires (lines == [""] || lines[|lines| - 1] != "") && AllBreaks(breaks)
    ensures ReflowedText(Join(lines, '\n') + breaks) ==
            if InCodeAt(lines, false, |lines|) then Err(UnclosedFence) else Ok(Join(ByLine(lines, false, None), '\n'))
  {
    var body := Join(lines, '\n');
    if lines != [""] {
      JoinEnds(lines);
    }
    BreaksGo(body, breaks);
    SplitJoin(lines);
    OpenIsInCode(lines, false);
    ByLineAgrees(lines, false);
  }
}
