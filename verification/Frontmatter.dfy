/** The requoting of `name` and `description` in the frontmatter of a skill. */
module Frontmatter {
  import opened Basics
  import opened Sequences
  import opened PyText
  import opened YamlQuote

  // ---- One line ----

  function TrimLeft(s: string): string {
    if s != "" && IsWhitespace(s[0]) then TrimLeft(s[1..]) else s
  }

  /** The value after `key:`, trimmed, if the line has that key. */
  function ValueOf(line: string, key: string): Option<string> {
    if key + ":" <= line then Some(TrimLeft(line[|key| + 1..])) else None
  }

  predicate IsQuotedAlready(value: string) {
    value == "" || value[0] in {'"', '\'', '|', '>'}
  }

  function RequoteKey(line: string, key: string): string {
    match ValueOf(line, key)
    case None => line
    case Some(value) => if IsQuotedAlready(value) then line else key + ": " + Quoted(value)
  }

  function RequoteLine(line: string): string {
    if "name:" <= line then RequoteKey(line, "name") else RequoteKey(line, "description")
  }

  lemma TrimStops(s: string)
    requires s != "" && !IsWhitespace(s[0])
    ensures TrimLeft(" " + s) == s
  {
    var spaced := " " + s;
    assert spaced[0] == ' ' && spaced[1..] == s;
    assert TrimLeft(s) == s;
  }

  lemma RequotedValue(key: string, value: string)
    ensures ValueOf(key + ": " + Quoted(value), key) == Some(Quoted(value))
  {
    var text := key + ": " + Quoted(value);
    assert text == key + ":" + (" " + Quoted(value));
    assert text[|key| + 1..] == " " + Quoted(value);
    assert Quoted(value)[0] == '"';
    TrimStops(Quoted(value));
  }

  /** A requoted line keeps its key, and its value decodes to the text that was there. Requoting it
      again changes nothing. */
  lemma RequoteKeyLaws(line: string, key: string)
    ensures RequoteKey(RequoteKey(line, key), key) == RequoteKey(line, key)
    ensures RequoteKey(line, key) != line ==>
              ValueOf(line, key).Some? && ValueOf(RequoteKey(line, key), key).Some? &&
              Decode(ValueOf(RequoteKey(line, key), key).value) == ValueOf(line, key)
  {
    if ValueOf(line, key).Some? {
      var value := ValueOf(line, key).value;
      RequotedValue(key, value);
      assert Quoted(value)[0] == '"';
      QuoteRoundTrip(value);
    }
  }

  /** Only a `name` or `description` line changes, and a second pass over the result changes nothing. */
  lemma RequoteLineLaws(line: string)
    ensures RequoteLine(RequoteLine(line)) == RequoteLine(line)
    ensures RequoteLine(line) != line ==>
              exists key | key in {"name", "description"} ::
                ValueOf(line, key).Some? && RequoteLine(line) == key + ": " + Quoted(ValueOf(line, key).value)
  {
    var key := if "name:" <= line then "name" else "description";
    RequoteKeyLaws(line, key);
    assert "name" + ":" == "name:" && "description" + ":" == "description:";
    if RequoteLine(line) != line {
      var quoted := Quoted(ValueOf(line, key).value);
      assert RequoteLine(line) == key + ": " + quoted;
      assert (key + ": " + quoted)[0] == key[0];
      assert key == "name" ==> ("name" + ": " + quoted)[..5] == "name:";
    }
  }

  lemma RequotedEnds(line: string)
    requires RequoteLine(line) != line
    ensures line != "" && RequoteLine(line) != "" && RequoteLine(line)[|RequoteLine(line)| - 1] == '"'
  {
    var key := if "name:" <= line then "name" else "description";
    var quoted := Quoted(ValueOf(line, key).value);
    assert RequoteLine(line) == key + ": " + quoted;
    assert quoted[|quoted| - 1] == '"';
  }

  lemma OneLine(a: string, b: string)
    requires '\n' !in a && '\n' !in b
    ensures '\n' !in a + b
  {
  }

  lemma QuotedIsOneLine(value: string)
    ensures '\n' !in Quoted(value)
  {
    BodyIsStrict(value);
    StrictBodyIsOneLine(Body(value));
    OneLine("\"", Body(value));
    OneLine("\"" + Body(value), "\"");
  }

  lemma RequotedIsOneLine(line: string)
    requires '\n' !in line
    ensures '\n' !in RequoteLine(line)
  {
    var key := if "name:" <= line then "name" else "description";
    if RequoteLine(line) != line {
      var value := ValueOf(line, key).value;
      QuotedIsOneLine(value);
      OneLine(key, ": ");
      OneLine(key + ": ", Quoted(value));
    }
  }

  // ---- The whole frontmatter ----

  predicate EndsWithReturn(line: string) {
    line != "" && line[|line| - 1] == '\r'
  }

  function WithoutReturn(line: string): string {
    if EndsWithReturn(line) then line[..|line| - 1] else line
  }

  function Ended(parts: seq<string>): seq<string> {
    seq(|parts|, i requires 0 <= i < |parts| => WithoutReturn(parts[i]))
  }

  /** The lines of a text that is `parts` with line breaks between them: a carriage return before a break is
      part of the break, and nothing after the last break is no line. */
  function LinesOf(parts: seq<string>): seq<string>
    requires parts != []
  {
    var init, last := Ended(parts[..|parts| - 1]), parts[|parts| - 1];
    if last == "" then init else init + [last]
  }

  /** `text.lines()` */
  function Lines(text: string): seq<string> {
    LinesOf(Split(text))
  }

  function RequotedLines(lines: seq<string>): seq<string> {
    seq(|lines|, i requires 0 <= i < |lines| => RequoteLine(lines[i]))
  }

  function Requoted(text: string): string {
    Join(RequotedLines(Lines(text)), '\n')
  }

  /** Lines that come back as they are from the text that joins them: the last is not empty, and no other
      ends with a carriage return. */
  predicate ReadBack(lines: seq<string>) {
    && (lines != [] ==> lines[|lines| - 1] != "")
    && forall i | 0 <= i < |lines| - 1 :: !EndsWithReturn(lines[i])
  }

  lemma LinesAreLines(text: string)
    ensures AreLines(Lines(text)) && AreLines(RequotedLines(Lines(text)))
  {
    var lines := Lines(text);
    forall i | 0 <= i < |lines| ensures '\n' !in lines[i] && '\n' !in RequoteLine(lines[i]) {
      RequotedIsOneLine(lines[i]);
    }
  }

  lemma LinesOfJoin(lines: seq<string>)
    requires lines != [] && AreLines(lines)
    ensures Lines(Join(lines, '\n')) == LinesOf(lines)
  {
    SplitJoin(lines);
  }

  lemma ReadBackExactly(lines: seq<string>)
    requires lines != []
    ensures LinesOf(lines) == lines <==> ReadBack(lines)
  {
    var n := |lines| - 1;
    var init := lines[..n];
    if ReadBack(lines) {
      assert Ended(init) == init;
      assert init + [lines[n]] == lines;
    } else if lines[n] != "" {
      var i :| 0 <= i < n && EndsWithReturn(lines[i]);
      assert LinesOf(lines)[i] == WithoutReturn(lines[i]) != lines[i];
    }
  }

  /** The frontmatter with each line requoted and nothing else: its lines are the requoted lines of the text,
      exactly when the text has no line, or its last line is not empty and no other one ends with a carriage
      return. */
  lemma RequotedLineByLine(text: string)
    ensures Lines(Requoted(text)) == RequotedLines(Lines(text)) <==> ReadBack(RequotedLines(Lines(text)))
  {
    LinesAreLines(text);
    var lines := RequotedLines(Lines(text));
    if lines == [] {
      BreakAtOf("", "");
    } else {
      LinesOfJoin(lines);
      ReadBackExactly(lines);
    }
  }

  lemma RequotedAgain(lines: seq<string>)
    ensures RequotedLines(RequotedLines(lines)) == RequotedLines(lines)
  {
    forall i | 0 <= i < |lines| ensures RequoteLine(RequoteLine(lines[i])) == RequoteLine(lines[i]) {
      RequoteLineLaws(lines[i]);
    }
  }

  /** Requoting a requoted frontmatter changes nothing exactly when its lines read back, or it has at most
      one line. */
  lemma RequoteIdempotentExactly(text: string)
    ensures Requoted(Requoted(text)) == Requoted(text) <==>
            |Lines(text)| <= 1 || ReadBack(RequotedLines(Lines(text)))
  {
    var lines := RequotedLines(Lines(text));
    LinesAreLines(text);
    RequotedAgain(Lines(text));
    if lines == [] {
      BreakAtOf("", "");
    } else if ReadBack(lines) {
      LinesOfJoin(lines);
      ReadBackExactly(lines);
    } else if |lines| == 1 {
      assert lines == [""];
      LinesOfJoin(lines);
    } else {
      LostLine(lines);
    }
  }

  /** With a line that does not read back, the second pass loses a character. */
  lemma LostLine(lines: seq<string>)
    requires |lines| > 1 && AreLines(lines) && !ReadBack(lines)
    ensures Requoted(Join(lines, '\n')) != Join(lines, '\n')
  {
    LinesOfJoin(lines);
    LinesAreLines(Join(lines, '\n'));
    LinesDiffer(lines);
    JoinDetermines(RequotedLines(LinesOf(lines)), lines);
  }

  lemma LinesDiffer(lines: seq<string>)
    requires |lines| > 1 && !ReadBack(lines)
    ensures RequotedLines(LinesOf(lines)) != [] && RequotedLines(LinesOf(lines)) != lines
  {
    var n := |lines| - 1;
    var again := RequotedLines(LinesOf(lines));
    if lines[n] == "" {
      assert |again| == n;
    } else {
      var i :| 0 <= i < n && EndsWithReturn(lines[i]);
      assert LinesOf(lines)[i] == WithoutReturn(lines[i]);
      ReturnIsLost(lines[i]);
      assert again[i] != lines[i];
    }
  }

  lemma ReturnIsLost(line: string)
    requires EndsWithReturn(line)
    ensures RequoteLine(WithoutReturn(line)) != line
  {
    var short := WithoutReturn(line);
    if RequoteLine(short) != short {
      RequotedEnds(short);
    }
  }

  lemma EmptyLineStays()
    ensures RequoteLine("") == ""
  {
  }

  lemma JoinedLinesOf(lines: seq<string>, shorter: seq<string>)
    requires lines != [] && AreLines(lines) && LinesOf(lines) == shorter && RequotedLines(shorter) == shorter
    ensures Requoted(Join(lines, '\n')) == Join(shorter, '\n')
  {
    LinesOfJoin(lines);
  }

  lemma JoinBreak(lines: seq<string>)
    requires lines != []
    ensures Join(lines + [""], '\n') == Join(lines, '\n') + ['\n']
    decreases |lines|
  {
    var more := lines + [""];
    if |lines| == 1 {
      assert more[1..] == [""] && more[0] == lines[0];
    } else {
      assert more[1..] == lines[1..] + [""] && more[0] == lines[0];
      JoinBreak(lines[1..]);
      AssociateFour(lines[0], ['\n'], Join(lines[1..], '\n'), ['\n']);
    }
  }

  /** A text of one line and two breaks: each of two passes takes a break off. */
  lemma BlankEndIsLost(line: string)
    requires line != "" && '\n' !in line && !EndsWithReturn(line) && RequoteLine(line) == line
    ensures Requoted(line + ['\n'] + ['\n']) == line + ['\n'] && Requoted(line + ['\n']) == line
  {
    var one, two, three := [line], [line] + [""], [line] + [""] + [""];
    EmptyLineStays();
    JoinBreak(one);
    JoinBreak(two);
    assert two[..1] == one && three[..2] == two;
    assert Ended(one) == one && Ended(two) == two;
    assert RequotedLines(one) == one && RequotedLines(two) == two;
    JoinedLinesOf(two, one);
    JoinedLinesOf(three, two);
  }

  // ---- Which lines are requoted ----

  /** `line` is the field `key` with a bare value: not empty, not quoted and no block scalar. */
  ghost predicate HasBareValue(line: string, key: string, value: string) {
    exists gap ::
      && line == key + ":" + gap + value && (forall c | c in gap :: IsWhitespace(c))
      && value != "" && !IsWhitespace(value[0]) && value[0] !in "\"'|>"
  }

  lemma {:induction false} TrimLeftIs(s: string) returns (gap: string)
    ensures s == gap + TrimLeft(s) && (forall c | c in gap :: IsWhitespace(c))
    ensures TrimLeft(s) != "" ==> !IsWhitespace(TrimLeft(s)[0])
  {
    if s != "" && IsWhitespace(s[0]) {
      var rest := TrimLeftIs(s[1..]);
      gap := [s[0]] + rest;
    } else {
      gap := "";
    }
  }

  lemma {:induction false} TrimLeftOf(gap: string, value: string)
    requires (forall c | c in gap :: IsWhitespace(c)) && value != "" && !IsWhitespace(value[0])
    ensures TrimLeft(gap + value) == value
  {
    if gap == "" {
      assert gap + value == value;
    } else {
      assert gap[0] in gap && (gap + value)[1..] == gap[1..] + value;
      TrimLeftOf(gap[1..], value);
    }
  }

  lemma BareValueOf(line: string, key: string, value: string)
    requires HasBareValue(line, key, value)
    ensures ValueOf(line, key) == Some(value) && !IsQuotedAlready(value)
  {
    var gap :| line == key + ":" + gap + value && (forall c | c in gap :: IsWhitespace(c));
    assert line == key + ":" + (gap + value);
    assert line[|key| + 1..] == gap + value;
    TrimLeftOf(gap, value);
  }

  lemma ValueIsBare(line: string, key: string)
    requires ValueOf(line, key).Some? && !IsQuotedAlready(ValueOf(line, key).value)
    ensures HasBareValue(line, key, ValueOf(line, key).value)
  {
    var rest := line[|key| + 1..];
    var gap := TrimLeftIs(rest);
    assert line == key + ":" + rest;
    assert line == key + ":" + gap + TrimLeft(rest);
  }

  lemma FieldNames(line: string, value: string)
    requires HasBareValue(line, "description", value)
    ensures !("name:" <= line)
  {
    assert line[0] == 'd';
  }

  /** A bare `name` or `description` gets its value quoted. */
  lemma BareValueIsQuoted(line: string, key: string, value: string)
    requires key in {"name", "description"} && HasBareValue(line, key, value)
    ensures RequoteLine(line) == key + ": " + Quoted(value)
  {
    BareValueOf(line, key, value);
    if key == "description" {
      FieldNames(line, value);
    } else {
      assert "name" + ":" == "name:";
    }
  }

  /** Every other line stays. */
  lemma OtherLinesStay(line: string)
    requires forall key, value | key in {"name", "description"} :: !HasBareValue(line, key, value)
    ensures RequoteLine(line) == line
  {
    var key := if "name:" <= line then "name" else "description";
    if ValueOf(line, key).Some? && !IsQuotedAlready(ValueOf(line, key).value) {
      ValueIsBare(line, key);
    }
  }
}
