/** Reflowing a reflowed text: when it is accepted, and when it changes nothing. */
module ReflowAgain {
  import opened Basics
  import opened Sequences
  import opened PyText
  import opened Reflow

  // ---- Paragraphs that open with an indented fence ----

  /** How many paragraphs start with a fence that has whitespace before it. */
  function FenceOpeners(lines: seq<string>, inCode: bool): nat
    decreases |lines|
  {
    if lines == [] then 0
    else if IsFence(lines[0]) then FenceOpeners(lines[1..], !inCode)
    else if inCode || IsKept(lines[0]) then FenceOpeners(lines[1..], inCode)
    else (if IsFence(LStrip(lines[0])) then 1 else 0) + FenceOpeners(lines[1 + Continuation(lines[1..])..], false)
  }

  /** There is none when no fence at all has whitespace before it. */
  lemma {:induction false} PlainFencesSuffice(lines: seq<string>, inCode: bool)
    requires forall i | 0 <= i < |lines| :: IsFence(LStrip(lines[i])) ==> IsFence(lines[i])
    ensures FenceOpeners(lines, inCode) == 0
    decreases |lines|
  {
    if lines != [] {
      if IsFence(lines[0]) {
        PlainFencesSuffice(lines[1..], !inCode);
      } else if inCode || IsKept(lines[0]) {
        PlainFencesSuffice(lines[1..], inCode);
      } else {
        PlainFencesSuffice(lines[1 + Continuation(lines[1..])..], false);
      }
    }
  }

  lemma {:induction false} JoinIsTrimmed(lines: seq<string>)
    requires lines != [] && forall i | 0 <= i < |lines| :: IsTrimmed(lines[i])
    ensures IsTrimmed(Join(lines, ' ')) && Join(lines, ' ')[0] == lines[0][0]
    decreases |lines|
  {
    if |lines| > 1 {
      JoinIsTrimmed(lines[1..]);
      var s := lines[0] + ([' '] + Join(lines[1..], ' '));
      assert s[0] == lines[0][0];
      assert s[|s| - 1] == Join(lines[1..], ' ')[|Join(lines[1..], ' ')| - 1];
    }
  }

  /** A joined paragraph: trimmed, and it starts as its first line does. */
  lemma JoinedLaws(paragraph: seq<string>)
    requires paragraph != [] && forall i | 0 <= i < |paragraph| :: !IsBlank(paragraph[i])
    ensures IsTrimmed(Joined(paragraph)) && Joined(paragraph)[0] == LStrip(paragraph[0])[0]
    ensures IsFence(Joined(paragraph)) ==> IsFence(LStrip(paragraph[0]))
  {
    var stripped := Stripped(paragraph);
    forall i | 0 <= i < |stripped| ensures IsTrimmed(stripped[i]) {
      StripLaws(paragraph[i]);
    }
    JoinIsTrimmed(stripped);
    StripLaws(paragraph[0]);
    FenceOfJoin(stripped);
    var first, ink := stripped[0], LStrip(paragraph[0]);
    if IsFence(first) {
      assert first[..3] == ink[..3];
    }
  }

  lemma FenceOfJoin(lines: seq<string>)
    requires lines != [] && lines[0] != ""
    ensures IsFence(Join(lines, ' ')) ==> IsFence(lines[0])
  {
    if |lines| > 1 {
      var s := lines[0] + ([' '] + Join(lines[1..], ' '));
      if |lines[0]| < 3 {
        assert s[|lines[0]|] == ' ';
      } else {
        assert s[..3] == lines[0][..3];
      }
    }
  }

  /** A joined paragraph is a paragraph again, and stays as it is. */
  lemma JoinedIsParagraph(paragraph: seq<string>)
    requires paragraph != [] && forall i | 0 <= i < |paragraph| :: !IsBlank(paragraph[i])
    requires !IsBlock(paragraph[0]) && !IsFence(LStrip(paragraph[0]))
    ensures var j := Joined(paragraph); !IsFence(j) && !IsKept(j) && Joined([j]) == j
    ensures StartsItem(Joined(paragraph)) <==>
            var ink := LStrip(paragraph[0]); StartsWith(ink, '-') || StartsWith(ink, '*') || StartsWith(ink, '+')
  {
    JoinedLaws(paragraph);
    var j := Joined(paragraph);
    TrimmedIsStripped(j);
    assert Stripped([j]) == [j];
    assert IsSpace(' ') && IsSpace('\t');
  }

  lemma OpenersOf(lines: seq<string>, n: nat)
    requires lines != [] && !IsFence(lines[0]) && !IsKept(lines[0]) && n == 1 + Continuation(lines[1..])
    ensures FenceOpeners(lines, false) == (if IsFence(LStrip(lines[0])) then 1 else 0) + FenceOpeners(lines[n..], false)
    ensures ReflowFrom(lines, false) == [Joined(lines[..n])] + ReflowFrom(lines[n..], false)
  {
    ParagraphFirst(lines, n);
  }

  lemma ParagraphOf(lines: seq<string>)
    requires lines != [] && !IsFence(lines[0]) && !IsKept(lines[0])
    ensures var n := 1 + Continuation(lines[1..]);
            && (forall i | 0 <= i < n :: !IsBlank(lines[i]) && !IsFence(lines[i]))
            && (n < |lines| ==> EndsParagraph(lines[n]))
  {
    var n := 1 + Continuation(lines[1..]);
    forall i | 0 <= i < n ensures !IsBlank(lines[i]) && !IsFence(lines[i]) {
      if i > 0 { assert lines[i] == lines[1..][i - 1]; }
    }
    if n < |lines| { assert lines[n] == lines[1..][n - 1]; }
  }

  /** What ends a paragraph still ends it after the reflow. */
  lemma EndStaysEnd(lines: seq<string>)
    requires lines != [] && EndsParagraph(lines[0])
    ensures var after := ReflowFrom(lines, false); after != [] && EndsParagraph(after[0])
  {
    if !IsFence(lines[0]) && !IsKept(lines[0]) {
      ParagraphOf(lines);
      var n := 1 + Continuation(lines[1..]);
      OpenersOf(lines, n);
      assert lines[..n][0] == lines[0];
      assert LStrip(lines[0]) != "";
      JoinedIsParagraph(lines[..n]);
    }
  }

  /** Without new fences the second pass sees the same fenced lines. */
  lemma {:induction false} FencedKept(lines: seq<string>, inCode: bool)
    requires FenceOpeners(lines, inCode) == 0
    ensures Fenced(ReflowFrom(lines, inCode), inCode) == Fenced(lines, inCode)
    decreases |lines|
  {
    if lines != [] {
      var once := ReflowFrom(lines, inCode);
      if IsFence(lines[0]) || inCode || IsKept(lines[0]) {
        var after := if IsFence(lines[0]) then !inCode else inCode;
        FencedKept(lines[1..], after);
        assert once[1..] == ReflowFrom(lines[1..], after);
      } else {
        var n := 1 + Continuation(lines[1..]);
        OpenersOf(lines, n);
        ParagraphOf(lines);
        ParagraphOpens(lines, n);
        FencedKept(lines[n..], false);
        FencedSkips(lines, n);
        assert once[1..] == ReflowFrom(lines[n..], false);
      }
    }
  }

  // ---- A block of code that the second pass reads as prose ----

  /** How many lines come before the next fence. */
  function BlockLength(lines: seq<string>): (n: nat)
    ensures n <= |lines|
    ensures n < |lines| ==> IsFence(lines[n])
    ensures forall i | 0 <= i < n :: !IsFence(lines[i])
  {
    if lines == [] || IsFence(lines[0]) then 0 else 1 + BlockLength(lines[1..])
  }

  /** Read as prose, these lines stay as they are: each line that is not kept is trimmed, and a
      paragraph of its own. */
  predicate AlreadyReflowed(lines: seq<string>) {
    forall i | 0 <= i < |lines| && !IsKept(lines[i]) ::
      Strip(lines[i]) == lines[i] && (i + 1 < |lines| ==> EndsParagraph(lines[i + 1]))
  }

  lemma {:induction false} ReflowShortens(lines: seq<string>, inCode: bool)
    ensures |ReflowFrom(lines, inCode)| <= |lines|
    decreases |lines|
  {
    if lines != [] {
      if IsFence(lines[0]) {
        ReflowShortens(lines[1..], !inCode);
      } else if inCode || IsKept(lines[0]) {
        ReflowShortens(lines[1..], inCode);
      } else {
        ReflowShortens(lines[1 + Continuation(lines[1..])..], false);
      }
    }
  }

  lemma AlreadyHead(lines: seq<string>)
    requires lines != []
    ensures AlreadyReflowed(lines) <==>
            && AlreadyReflowed(lines[1..])
            && (!IsKept(lines[0]) ==> Strip(lines[0]) == lines[0] && (|lines| > 1 ==> EndsParagraph(lines[1])))
  {
    var rest := lines[1..];
    assert forall i | 0 <= i < |rest| :: rest[i] == lines[i + 1];
    if AlreadyReflowed(rest) {
      forall i | 1 <= i < |lines| && !IsKept(lines[i])
        ensures Strip(lines[i]) == lines[i] && (i + 1 < |lines| ==> EndsParagraph(lines[i + 1]))
      {
        assert !IsKept(rest[i - 1]);
      }
    }
  }

  lemma {:induction false} ReflowedExactly(lines: seq<string>)
    requires forall i | 0 <= i < |lines| :: !IsFence(lines[i])
    ensures ReflowFrom(lines, false) == lines <==> AlreadyReflowed(lines)
    decreases |lines|
  {
    if lines != [] {
      var rest := lines[1..];
      AlreadyHead(lines);
      assert lines == [lines[0]] + rest;
      if IsKept(lines[0]) {
        ReflowedExactly(rest);
        assert ReflowFrom(lines, false)[1..] == ReflowFrom(rest, false);
      } else {
        ParagraphReflowed(lines);
      }
    }
  }

  lemma ParagraphReflowed(lines: seq<string>)
    requires lines != [] && !IsKept(lines[0]) && forall i | 0 <= i < |lines| :: !IsFence(lines[i])
    ensures ReflowFrom(lines, false) == lines <==>
            AlreadyReflowed(lines[1..]) && Strip(lines[0]) == lines[0] && (|lines| > 1 ==> EndsParagraph(lines[1]))
    decreases |lines|, 0
  {
    var n := 1 + Continuation(lines[1..]);
    var rest := lines[1..];
    assert rest != [] ==> rest[0] == lines[1];
    if n > 1 {
      ParagraphFirst(lines, n);
      ReflowShortens(lines[n..], false);
    } else {
      ReflowedExactly(rest);
      OneLineReflowed(lines);
    }
  }

  lemma OneLineReflowed(lines: seq<string>)
    requires lines != [] && !IsKept(lines[0]) && !IsFence(lines[0]) && Continuation(lines[1..]) == 0
    ensures ReflowFrom(lines, false) == lines <==>
            ReflowFrom(lines[1..], false) == lines[1..] && Strip(lines[0]) == lines[0]
  {
    ParagraphFirst(lines, 1);
    assert lines[..1] == [lines[0]];
    JoinedAlone(lines[0]);
    SameHeads(Strip(lines[0]), ReflowFrom(lines[1..], false), lines[0], lines[1..]);
    assert lines == [lines[0]] + lines[1..];
  }

  lemma JoinedAlone(line: string)
    ensures Joined([line]) == Strip(line)
  {
    assert Stripped([line]) == [Strip(line)];
  }

  lemma SameHeads(a: string, xs: seq<string>, b: string, ys: seq<string>)
    ensures [a] + xs == [b] + ys <==> a == b && xs == ys
  {
    if [a] + xs == [b] + ys {
      assert ([a] + xs)[0] == a && ([b] + ys)[0] == b;
      assert ([a] + xs)[1..] == xs && ([b] + ys)[1..] == ys;
    }
  }

  // ---- The second pass ----

  /** What follows a block: its closing fence and the lines after it, or nothing. */
  ghost predicate IsClosed(tail: seq<string>) {
    tail == [] || IsFence(tail[0])
  }

  lemma {:induction false} CodeStays(block: seq<string>, tail: seq<string>)
    requires IsClosed(tail) && forall i | 0 <= i < |block| :: !IsFence(block[i])
    ensures ReflowFrom(block + tail, true) == block + ReflowFrom(tail, true)
    decreases |block|
  {
    if block == [] {
      assert block + tail == tail;
    } else {
      assert (block + tail)[0] == block[0] && (block + tail)[1..] == block[1..] + tail;
      CodeStays(block[1..], tail);
      assert block == [block[0]] + block[1..];
    }
  }

  lemma {:induction false} ContinuationWithin(block: seq<string>, tail: seq<string>)
    requires IsClosed(tail)
    ensures Continuation(block + tail) == Continuation(block)
    decreases |block|
  {
    if block == [] {
      assert block + tail == tail;
    } else {
      assert (block + tail)[0] == block[0] && (block + tail)[1..] == block[1..] + tail;
      ContinuationWithin(block[1..], tail);
    }
  }

  /** A fence ends whatever paragraph comes before it. */
  lemma {:induction false} ProseUpToFence(block: seq<string>, tail: seq<string>)
    requires IsClosed(tail) && forall i | 0 <= i < |block| :: !IsFence(block[i])
    ensures ReflowFrom(block + tail, false) == ReflowFrom(block, false) + ReflowFrom(tail, false)
    decreases |block|
  {
    if block == [] {
      assert block + tail == tail;
      assert [] + ReflowFrom(tail, false) == ReflowFrom(tail, false);
    } else {
      var all := block + tail;
      assert all[0] == block[0] && all[1..] == block[1..] + tail;
      if IsKept(block[0]) {
        ProseUpToFence(block[1..], tail);
        Associate([block[0]], ReflowFrom(block[1..], false), ReflowFrom(tail, false));
      } else {
        var n := 1 + Continuation(block[1..]);
        ProseUpToFence(block[n..], tail);
        ParagraphUpToFence(block, tail, n);
      }
    }
  }

  lemma ParagraphUpToFence(block: seq<string>, tail: seq<string>, n: nat)
    requires block != [] && IsClosed(tail) && !IsFence(block[0]) && !IsKept(block[0])
    requires n == 1 + Continuation(block[1..])
    requires ReflowFrom(block[n..] + tail, false) == ReflowFrom(block[n..], false) + ReflowFrom(tail, false)
    ensures ReflowFrom(block + tail, false) == ReflowFrom(block, false) + ReflowFrom(tail, false)
  {
    ParagraphFirst(block, n);
    CutsWithin(block, tail, n);
    ParagraphFirst(block + tail, n);
    Associate([Joined(block[..n])], ReflowFrom(block[n..], false), ReflowFrom(tail, false));
  }

  lemma CutsWithin(block: seq<string>, tail: seq<string>, n: nat)
    requires block != [] && IsClosed(tail) && n == 1 + Continuation(block[1..])
    ensures var all := block + tail;
            && all[0] == block[0] && n == 1 + Continuation(all[1..])
            && all[..n] == block[..n] && all[n..] == block[n..] + tail
  {
    ContinuationWithin(block[1..], tail);
    CutFirst(block, tail, 1);
    CutFirst(block, tail, n);
  }

  /** Every fenced block after an odd number of new fences would stay as it is if it were prose. `odd`
      says whether the number is odd before `lines`, which start outside a block. */
  predicate BlocksSurvive(lines: seq<string>, odd: bool)
    decreases |lines|
  {
    if lines == [] then true
    else if IsFence(lines[0]) then
      var n := 1 + BlockLength(lines[1..]);
      (odd ==> AlreadyReflowed(lines[1..n])) && (n < |lines| ==> BlocksSurvive(lines[n + 1..], odd))
    else if IsKept(lines[0]) then BlocksSurvive(lines[1..], odd)
    else BlocksSurvive(lines[1 + Continuation(lines[1..])..], odd != IsFence(LStrip(lines[0])))
  }

  lemma {:induction false} NoOpenersSurvive(lines: seq<string>)
    requires FenceOpeners(lines, false) == 0
    ensures BlocksSurvive(lines, false)
    decreases |lines|
  {
    if lines != [] {
      if IsFence(lines[0]) {
        var n := 1 + BlockLength(lines[1..]);
        OpenersAfterBlock(lines[1..]);
        if n < |lines| {
          assert lines[1..][n..] == lines[n + 1..];
          NoOpenersSurvive(lines[n + 1..]);
        }
      } else if IsKept(lines[0]) {
        NoOpenersSurvive(lines[1..]);
      } else {
        NoOpenersSurvive(lines[1 + Continuation(lines[1..])..]);
      }
    }
  }

  lemma {:induction false} OpenersAfterBlock(lines: seq<string>)
    ensures var n := BlockLength(lines);
            n < |lines| ==> FenceOpeners(lines, true) == FenceOpeners(lines[n + 1..], false)
    decreases |lines|
  {
    if lines != [] && !IsFence(lines[0]) {
      OpenersAfterBlock(lines[1..]);
      var n := BlockLength(lines[1..]);
      if n < |lines[1..]| {
        assert lines[1..][n + 1..] == lines[n + 2..];
      }
    }
  }

  /** The second pass, from outside a block, leaves the reflowed lines alone exactly when the blocks
      survive. It starts inside code when the number of new fences so far is odd. */
  lemma {:induction false} SecondPassExactly(lines: seq<string>, odd: bool)
    ensures var once := ReflowFrom(lines, false); ReflowFrom(once, odd) == once <==> BlocksSurvive(lines, odd)
    decreases |lines|, 1
  {
    if lines != [] {
      if IsFence(lines[0]) {
        SecondPassBlock(lines, odd);
      } else if IsKept(lines[0]) {
        var rest := ReflowFrom(lines[1..], false);
        SecondPassExactly(lines[1..], odd);
        KeptAgain(lines[0], rest, odd);
        SameHeads(lines[0], ReflowFrom(rest, odd), lines[0], rest);
      } else {
        SecondPassParagraph(lines, odd);
      }
    }
  }

  lemma KeptAgain(line: string, rest: seq<string>, inCode: bool)
    requires !IsFence(line) && (inCode || IsKept(line))
    ensures ReflowFrom([line] + rest, inCode) == [line] + ReflowFrom(rest, inCode)
  {
    assert ([line] + rest)[1..] == rest;
  }

  lemma FenceAgain(line: string, rest: seq<string>, inCode: bool)
    requires IsFence(line)
    ensures ReflowFrom([line] + rest, inCode) == [line] + ReflowFrom(rest, !inCode)
  {
    assert ([line] + rest)[1..] == rest;
  }

  lemma ParagraphAgain(line: string, rest: seq<string>)
    requires !IsFence(line) && !IsKept(line) && Joined([line]) == line && (rest != [] ==> EndsParagraph(rest[0]))
    ensures ReflowFrom([line] + rest, false) == [line] + ReflowFrom(rest, false)
  {
    var all := [line] + rest;
    assert all[1..] == rest && Continuation(rest) == 0;
    OpenersOf(all, 1);
    assert all[..1] == [line];
  }

  lemma SecondPassParagraph(lines: seq<string>, odd: bool)
    requires lines != [] && !IsFence(lines[0]) && !IsKept(lines[0])
    ensures var once := ReflowFrom(lines, false); ReflowFrom(once, odd) == once <==> BlocksSurvive(lines, odd)
    decreases |lines|, 0
  {
    var n := 1 + Continuation(lines[1..]);
    var j, rest := Joined(lines[..n]), lines[n..];
    var after := ReflowFrom(rest, false);
    OpenersOf(lines, n);
    ParagraphOpens(lines, n);
    SecondPassExactly(rest, odd != IsFence(j));
    JoinedAgain(lines, n, odd);
    SameHeads(j, ReflowFrom(after, odd != IsFence(j)), j, after);
  }

  /** The line that a paragraph became, read again. */
  lemma JoinedAgain(lines: seq<string>, n: nat, odd: bool)
    requires lines != [] && !IsFence(lines[0]) && !IsKept(lines[0]) && n == 1 + Continuation(lines[1..])
    ensures var j, after := Joined(lines[..n]), ReflowFrom(lines[n..], false);
            ReflowFrom([j] + after, odd) == [j] + ReflowFrom(after, odd != IsFence(j))
  {
    var j, rest := Joined(lines[..n]), lines[n..];
    var after := ReflowFrom(rest, false);
    ParagraphOpens(lines, n);
    if IsFence(j) {
      FenceAgain(j, after, odd);
    } else if odd {
      KeptAgain(j, after, odd);
    } else {
      ParagraphOf(lines);
      assert lines[..n][0] == lines[0];
      JoinedIsParagraph(lines[..n]);
      if rest != [] {
        EndStaysEnd(rest);
      }
      ParagraphAgain(j, after);
    }
  }

  lemma SecondPassBlock(lines: seq<string>, odd: bool)
    requires lines != [] && IsFence(lines[0])
    ensures var once := ReflowFrom(lines, false); ReflowFrom(once, odd) == once <==> BlocksSurvive(lines, odd)
    decreases |lines|, 0
  {
    var n := 1 + BlockLength(lines[1..]);
    var block, closing := lines[1..n], lines[n..];
    BlockParts(lines, n);
    CodeStays(block, closing);
    HeadStays(lines, false);
    var tail := ReflowFrom(closing, true);
    TailOf(closing);
    FenceAgain(lines[0], block + tail, odd);
    if n < |lines| {
      assert closing[1..] == lines[n + 1..];
      SecondPassExactly(lines[n + 1..], odd);
    }
    BlockAgain(block, closing, odd);
    SameHeads(lines[0], ReflowFrom(block + tail, !odd), lines[0], block + tail);
  }

  lemma BlockParts(lines: seq<string>, n: nat)
    requires lines != [] && n == 1 + BlockLength(lines[1..])
    ensures n <= |lines| && lines[1..] == lines[1..n] + lines[n..] && IsClosed(lines[n..])
    ensures forall i | 0 <= i < |lines[1..n]| :: !IsFence(lines[1..n][i])
  {
    var rest := lines[1..];
    forall i | 0 <= i < |lines[1..n]| ensures !IsFence(lines[1..n][i]) {
      assert lines[1..n][i] == rest[i];
    }
    assert n < |lines| ==> lines[n..][0] == rest[n - 1];
  }

  lemma TailOf(closing: seq<string>)
    requires IsClosed(closing)
    ensures IsClosed(ReflowFrom(closing, true))
    ensures closing != [] ==> ReflowFrom(closing, true) == [closing[0]] + ReflowFrom(closing[1..], false)
  {
  }

  lemma BlockAgain(block: seq<string>, closing: seq<string>, odd: bool)
    requires IsClosed(closing) && forall i | 0 <= i < |block| :: !IsFence(block[i])
    requires closing != [] ==>
               var once := ReflowFrom(closing[1..], false);
               ReflowFrom(once, odd) == once <==> BlocksSurvive(closing[1..], odd)
    ensures var all := block + ReflowFrom(closing, true);
            ReflowFrom(all, !odd) == all <==>
            (odd ==> AlreadyReflowed(block)) && (closing != [] ==> BlocksSurvive(closing[1..], odd))
  {
    var tail := ReflowFrom(closing, true);
    TailOf(closing);
    TailAgain(closing, odd);
    if odd {
      ProseUpToFence(block, tail);
      ReflowedExactly(block);
      ReflowShortens(block, false);
      ReflowShortens(tail, false);
      SameParts(ReflowFrom(block, false), ReflowFrom(tail, false), block, tail);
    } else {
      CodeStays(block, tail);
      ReflowShortens(tail, true);
      SameParts(block, ReflowFrom(tail, true), block, tail);
    }
  }

  lemma TailAgain(closing: seq<string>, odd: bool)
    requires IsClosed(closing)
    requires closing != [] ==>
               var once := ReflowFrom(closing[1..], false);
               ReflowFrom(once, odd) == once <==> BlocksSurvive(closing[1..], odd)
    ensures var tail := ReflowFrom(closing, true);
            ReflowFrom(tail, !odd) == tail <==> (closing != [] ==> BlocksSurvive(closing[1..], odd))
  {
    if closing != [] {
      var once := ReflowFrom(closing[1..], false);
      TailOf(closing);
      FenceAgain(closing[0], once, !odd);
      SameHeads(closing[0], ReflowFrom(once, odd), closing[0], once);
    }
  }

  lemma SameParts(a: seq<string>, b: seq<string>, c: seq<string>, d: seq<string>)
    requires |a| <= |c| && |b| <= |d|
    ensures a + b == c + d <==> a == c && b == d
  {
    if a + b == c + d {
      assert |a| == |c|;
      assert (a + b)[..|a|] == a && (c + d)[..|a|] == c;
      assert (a + b)[|a|..] == b && (c + d)[|a|..] == d;
    }
  }

  /** Reading the output back gives the reflowed lines. */
  lemma OutputLines(text: string)
    ensures var once := ReflowFrom(Split(DropBreaks(text)), false);
            Split(DropBreaks(Join(once, '\n'))) == once
  {
    var lines := Split(DropBreaks(text));
    var once := ReflowFrom(lines, false);
    var out := Join(once, '\n');
    DropBreaksEnds(text);
    ResultIsLines(lines, false);
    if DropBreaks(text) == "" {
      assert lines == [""];
      assert once == [""];
    } else {
      LastLineOf(DropBreaks(text));
      LastLineStays(lines, false);
      JoinEnds(once);
    }
    assert DropBreaks(out) == out;
    SplitJoin(once);
  }

  /** When reflowing a reflowed text changes nothing: exactly when an even number of paragraphs open with
      an indented fence, and each fenced block after an odd number of them would stay as prose. */
  lemma ReflowIdempotentExactly(text: string)
    requires ReflowedText(text).Ok?
    ensures var lines, out := Split(DropBreaks(text)), ReflowedText(text).value;
            ReflowedText(out) == Ok(out) <==> FenceOpeners(lines, false) % 2 == 0 && BlocksSurvive(lines, false)
  {
    var lines := Split(DropBreaks(text));
    var once := ReflowFrom(lines, false);
    OutputLines(text);
    OutputOpen(lines, false, false);
    SecondPassExactly(lines, false);
    DropBreaksEnds(text);
    ResultIsLines(lines, false);
    ResultIsLines(once, false);
    JoinDetermines(once, ReflowFrom(once, false));
  }

  /** Without indented fences that is always so, and the fenced lines are exactly those of the text. */
  lemma ReflowIdempotent(text: string)
    requires ReflowedText(text).Ok? && FenceOpeners(Split(DropBreaks(text)), false) == 0
    ensures var out := ReflowedText(text).value;
            && ReflowedText(out) == Ok(out)
            && Fenced(Split(DropBreaks(out)), false) == Fenced(Split(DropBreaks(text)), false)
  {
    var lines := Split(DropBreaks(text));
    ReflowIdempotentExactly(text);
    NoOpenersSurvive(lines);
    FencedKept(lines, false);
    OutputLines(text);
  }

  // ---- Fences that the reflow makes ----

  lemma {:induction false} RStripKeepsFence(s: string)
    requires IsFence(s)
    ensures IsFence(RStrip(s))
  {
    if IsSpace(s[|s| - 1]) {
      assert s[0] == s[1] == s[2] == '`' && !IsSpace('`');
      assert s[..|s| - 1][..3] == s[..3];
      RStripKeepsFence(s[..|s| - 1]);
    }
  }

  /** A joined paragraph is a fence exactly when its first line is one after its whitespace. */
  lemma JoinedFence(paragraph: seq<string>)
    requires paragraph != [] && forall i | 0 <= i < |paragraph| :: !IsBlank(paragraph[i])
    ensures IsFence(Joined(paragraph)) <==> IsFence(LStrip(paragraph[0]))
  {
    JoinedLaws(paragraph);
    if IsFence(LStrip(paragraph[0])) {
      RStripKeepsFence(LStrip(paragraph[0]));
      var stripped := Stripped(paragraph);
      assert stripped[0] == Strip(paragraph[0]);
      if |stripped| > 1 {
        assert Join(stripped, ' ')[..3] == stripped[0][..3];
      }
    }
  }

  /** Each paragraph that opens with an indented fence adds one fence line to the output. */
  lemma {:induction false} OutputOpen(lines: seq<string>, inCode: bool, open: bool)
    ensures OpenAfter(ReflowFrom(lines, inCode), open) ==
            ((OpenAfter(lines, inCode) == (inCode == open)) == (FenceOpeners(lines, inCode) % 2 == 0))
    decreases |lines|
  {
    if lines != [] {
      var after := ReflowFrom(lines, inCode);
      if IsFence(lines[0]) {
        OutputOpen(lines[1..], !inCode, !open);
        assert after[1..] == ReflowFrom(lines[1..], !inCode);
      } else if inCode || IsKept(lines[0]) {
        OutputOpen(lines[1..], inCode, open);
        assert after[1..] == ReflowFrom(lines[1..], inCode);
      } else {
        OutputOpenParagraph(lines, open);
      }
    }
  }

  lemma OutputOpenParagraph(lines: seq<string>, open: bool)
    requires lines != [] && !IsFence(lines[0]) && !IsKept(lines[0])
    ensures OpenAfter(ReflowFrom(lines, false), open) ==
            ((OpenAfter(lines, false) == (false == open)) == (FenceOpeners(lines, false) % 2 == 0))
    decreases |lines|, 0
  {
    var n := 1 + Continuation(lines[1..]);
    var j, rest := Joined(lines[..n]), lines[n..];
    ParagraphOpens(lines, n);
    OpenersOf(lines, n);
    OutputOpen(rest, false, if IsFence(j) then !open else open);
    OpenAfterHead(j, ReflowFrom(rest, false), open);
    OneMoreFlips(OpenAfter(ReflowFrom(rest, false), if IsFence(j) then !open else open), OpenAfter(rest, false), open,
                 FenceOpeners(rest, false), IsFence(j));
  }

  lemma OneMoreFlips(a: bool, b: bool, open: bool, count: nat, more: bool)
    requires a == ((b == (false == (if more then !open else open))) == (count % 2 == 0))
    ensures a == ((b == (false == open)) == (((if more then 1 else 0) + count) % 2 == 0))
  {
  }

  lemma ParagraphOpens(lines: seq<string>, n: nat)
    requires lines != [] && !IsFence(lines[0]) && !IsKept(lines[0]) && n == 1 + Continuation(lines[1..])
    ensures IsFence(Joined(lines[..n])) <==> IsFence(LStrip(lines[0]))
    ensures OpenAfter(lines, false) == OpenAfter(lines[n..], false)
  {
    ParagraphOf(lines);
    assert lines[..n][0] == lines[0];
    JoinedFence(lines[..n]);
    OpenSkips(lines, n, false);
  }

  lemma OpenAfterHead(line: string, rest: seq<string>, open: bool)
    ensures OpenAfter([line] + rest, open) == OpenAfter(rest, if IsFence(line) then !open else open)
  {
    assert ([line] + rest)[1..] == rest;
  }

  /** A reflowed text can be reflowed again exactly when an even number of its paragraphs open with an
      indented fence. After an odd number the output has an unclosed fence. */
  lemma SecondReflowAccepts(text: string)
    requires ReflowedText(text).Ok?
    ensures ReflowedText(ReflowedText(text).value).Ok? <==> FenceOpeners(Split(DropBreaks(text)), false) % 2 == 0
  {
    OutputLines(text);
    OutputOpen(Split(DropBreaks(text)), false, false);
  }

  lemma {:induction false} ResultIsLines(lines: seq<string>, inCode: bool)
    requires AreLines(lines)
    ensures AreLines(ReflowFrom(lines, inCode))
    ensures lines != [] ==> ReflowFrom(lines, inCode) != []
    decreases |lines|
  {
    if lines != [] {
      if IsFence(lines[0]) {
        ResultIsLines(lines[1..], !inCode);
      } else if inCode || IsKept(lines[0]) {
        ResultIsLines(lines[1..], inCode);
      } else {
        var n := 1 + Continuation(lines[1..]);
        ResultIsLines(lines[n..], false);
        JoinedIsLine(lines[..n]);
      }
    }
  }

  lemma {:induction false} StripIsPart(s: string)
    ensures '\n' !in s ==> '\n' !in LStrip(s) && '\n' !in RStrip(s)
  {
    if s != "" {
      if IsSpace(s[0]) { StripIsPart(s[1..]); }
      if IsSpace(s[|s| - 1]) { StripIsPart(s[..|s| - 1]); }
    }
  }

  lemma JoinedIsLine(paragraph: seq<string>)
    requires AreLines(paragraph)
    ensures '\n' !in Joined(paragraph)
  {
    var stripped := Stripped(paragraph);
    forall i | 0 <= i < |stripped| ensures '\n' !in stripped[i] {
      StripIsPart(paragraph[i]);
      StripIsPart(LStrip(paragraph[i]));
    }
    JoinIsLine(stripped);
  }

  lemma {:induction false} JoinIsLine(lines: seq<string>)
    requires AreLines(lines)
    ensures '\n' !in Join(lines, ' ')
    decreases |lines|
  {
    if |lines| > 1 {
      JoinIsLine(lines[1..]);
    }
  }

  predicate EndsWithInk(lines: seq<string>) {
    lines != [] && lines[|lines| - 1] != ""
  }

  lemma {:induction false} LastLineStays(lines: seq<string>, inCode: bool)
    requires EndsWithInk(lines)
    ensures EndsWithInk(ReflowFrom(lines, inCode))
    decreases |lines|
  {
    if IsFence(lines[0]) || inCode || IsKept(lines[0]) {
      var next := if IsFence(lines[0]) then !inCode else inCode;
      InkOfTail(lines, 1);
      if lines[1..] != [] {
        LastLineStays(lines[1..], next);
      }
      HeadStays(lines, inCode);
      InkAfterHead(lines[0], ReflowFrom(lines[1..], next));
    } else {
      var n := 1 + Continuation(lines[1..]);
      InkOfTail(lines, n);
      if lines[n..] != [] {
        LastLineStays(lines[n..], false);
      }
      ParagraphIsInk(lines, n);
      ParagraphFirst(lines, n);
      InkAfterHead(Joined(lines[..n]), ReflowFrom(lines[n..], false));
    }
  }

  lemma InkOfTail(lines: seq<string>, n: nat)
    requires EndsWithInk(lines) && 1 <= n <= |lines|
    ensures lines[n..] != [] ==> EndsWithInk(lines[n..])
    ensures lines[n..] == [] && n == 1 ==> lines[0] != ""
  {
  }

  lemma InkAfterHead(line: string, rest: seq<string>)
    requires if rest == [] then line != "" else EndsWithInk(rest)
    ensures EndsWithInk([line] + rest)
  {
  }

  lemma HeadStays(lines: seq<string>, inCode: bool)
    requires lines != [] && (IsFence(lines[0]) || inCode || IsKept(lines[0]))
    ensures var next := if IsFence(lines[0]) then !inCode else inCode;
            ReflowFrom(lines, inCode) == [lines[0]] + ReflowFrom(lines[1..], next)
  {
  }

  lemma ParagraphIsInk(lines: seq<string>, n: nat)
    requires lines != [] && !IsFence(lines[0]) && !IsKept(lines[0]) && n == 1 + Continuation(lines[1..])
    ensures Joined(lines[..n]) != ""
  {
    ParagraphOf(lines);
    JoinedLaws(lines[..n]);
  }

  lemma OneLineText(line: string)
    requires line != "" && '\n' !in line
    ensures Split(DropBreaks(line)) == [line]
  {
    assert line[|line| - 1] in line;
    BreakAtOf(line, "");
    assert line + "" == line;
  }

  lemma IndentedFenceLine(indented: string, fence: string)
    requires indented == [' '] + fence && fence == "```"
    ensures !IsFence(indented) && !IsKept(indented) && Strip(indented) == fence
  {
    assert IsSpace(' ') && !IsSpace('`');
    assert indented[1..] == fence && indented[1] == '`';
    assert LStrip(indented) == LStrip(fence) == fence;
    assert RStrip(fence) == fence;
  }

  /** With whitespace before a fence the second reflow can fail: the joined line is a fence. */
  lemma IndentedFenceReopens()
    ensures ReflowedText([' '] + "```") == Ok("```")
    ensures ReflowedText("```") == Err(UnclosedFence)
  {
    var fence := "```";
    var indented := [' '] + fence;
    OneLineText(indented);
    OneLineText(fence);
    IndentedFenceLine(indented, fence);
    JoinedAlone(indented);
    assert [indented][1..] == [] && [fence][1..] == [] && [indented][..1] == [indented];
    ParagraphFirst([indented], 1);
    assert ReflowFrom([indented], false) == [fence];
    assert !OpenAfter([indented], false) && OpenAfter([fence], false);
    assert ReflowedText(indented) == Ok(Join([fence], '\n'));
  }
}
