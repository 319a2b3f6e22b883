/** Version requirements: an optional operator and three numbers of one to nine digits. */
module ManifestVersion {
  import opened Basics
  import opened Sequences

  datatype Version = Version(op: string, major: nat, minor: nat, patch: nat)

  const OPERATORS: set<string> := {"", "=", "^", "~", ">="}

  predicate IsDigit(c: char) {
    '0' <= c <= '9'
  }

  /** A number of the accepted shape: one to nine ASCII digits. */
  predicate IsNumber(s: string) {
    1 <= |s| <= 9 && forall i | 0 <= i < |s| :: IsDigit(s[i])
  }

  function ValueOf(s: string): nat
    requires forall i | 0 <= i < |s| :: IsDigit(s[i])
  {
    if s == [] then 0
    else
      assert IsDigit(s[|s| - 1]);
      10 * ValueOf(s[..|s| - 1]) + (s[|s| - 1] as int - '0' as int)
  }

  function Dotted(number: string, rest: string): string {
    number + "." + rest
  }

  /** The shape that the version pattern matches in full. */
  ghost predicate HasShape(text: string, op: string, major: string, minor: string, patch: string) {
    op in OPERATORS && IsNumber(major) && IsNumber(minor) && IsNumber(patch) &&
    text == op + Dotted(major, Dotted(minor, patch))
  }

  function DigitRun(s: string): (n: nat)
    ensures n <= |s|
    ensures forall i | 0 <= i < n :: IsDigit(s[i])
    ensures n < |s| ==> !IsDigit(s[n])
  {
    if s != [] && IsDigit(s[0]) then 1 + DigitRun(s[1..]) else 0
  }

  function LeadingOperator(s: string): (op: string)
    ensures op in OPERATORS && op <= s
  {
    if |s| >= 2 && s[..2] == ">=" then ">="
    else if |s| >= 1 && s[0] == '=' then "="
    else if |s| >= 1 && s[0] == '^' then "^"
    else if |s| >= 1 && s[0] == '~' then "~"
    else ""
  }

  /** A leading number followed by a dot: the number and what is left. */
  function NumberThenDot(s: string): Option<(string, string)> {
    var n := DigitRun(s);
    if 1 <= n <= 9 && n < |s| && s[n] == '.' then Some((s[..n], s[n + 1..])) else None
  }

  function ParseVersion(text: string): Option<Version> {
    var op := LeadingOperator(text);
    match NumberThenDot(text[|op|..])
    case None => None
    case Some((major, rest)) =>
      match NumberThenDot(rest)
      case None => None
      case Some((minor, patch)) =>
        if IsNumber(major) && IsNumber(minor) && IsNumber(patch)
        then Some(Version(op, ValueOf(major), ValueOf(minor), ValueOf(patch)))
        else None
  }

  lemma {:induction false} DigitRunOf(number: string, rest: string)
    requires forall i | 0 <= i < |number| :: IsDigit(number[i])
    requires rest == [] || !IsDigit(rest[0])
    ensures DigitRun(number + rest) == |number|
  {
    if number != [] {
      DigitRunOf(number[1..], rest);
      assert (number + rest)[1..] == number[1..] + rest;
    } else {
      assert number + rest == rest;
    }
  }

  lemma NumberThenDotOf(number: string, rest: string)
    requires IsNumber(number)
    ensures NumberThenDot(Dotted(number, rest)) == Some((number, rest))
  {
    var s := Dotted(number, rest);
    DigitRunOf(number, "." + rest);
    assert s == number + ("." + rest);
    assert s[..|number|] == number && s[|number| + 1..] == rest;
  }

  /** Every text of the shape parses to its parts. */
  lemma ParseOfShape(text: string, op: string, major: string, minor: string, patch: string)
    requires HasShape(text, op, major, minor, patch)
    ensures ParseVersion(text) == Some(Version(op, ValueOf(major), ValueOf(minor), ValueOf(patch)))
  {
    var rest := Dotted(major, Dotted(minor, patch));
    assert IsDigit(rest[0]) by { assert rest[0] == major[0]; }
    assert LeadingOperator(text) == op by {
      if |op| == 2 {
        assert text[..2] == op;
      } else if |op| == 1 {
        assert text[0] == op[0] && text[..1] == op;
        if |text| >= 2 { assert text[1] == rest[0]; }
      } else {
        assert text == rest;
        assert |text| >= 2 ==> text[..2][0] == rest[0];
      }
    }
    assert text[|op|..] == rest;
    NumberThenDotOf(major, Dotted(minor, patch));
    NumberThenDotOf(minor, patch);
  }

  lemma SplitOfNumberThenDot(s: string)
    requires NumberThenDot(s).Some?
    ensures var (number, rest) := NumberThenDot(s).value; IsNumber(number) && s == Dotted(number, rest)
  {
  }

  lemma ShapeOfParse(text: string) returns (op: string, major: string, minor: string, patch: string)
    requires ParseVersion(text).Some?
    ensures HasShape(text, op, major, minor, patch)
    ensures ParseVersion(text) == Some(Version(op, ValueOf(major), ValueOf(minor), ValueOf(patch)))
  {
    op := LeadingOperator(text);
    var first := text[|op|..];
    SplitOfNumberThenDot(first);
    var rest: string;
    major, rest := NumberThenDot(first).value.0, NumberThenDot(first).value.1;
    SplitOfNumberThenDot(rest);
    minor, patch := NumberThenDot(rest).value.0, NumberThenDot(rest).value.1;
    assert first == Dotted(major, rest) && rest == Dotted(minor, patch);
    AfterPrefix(text, op);
  }

  ghost predicate SomeShape(text: string) {
    exists op, major, minor, patch :: HasShape(text, op, major, minor, patch)
  }

  /** A text parses exactly when it has the shape. */
  lemma ParsesExactlyTheShape(text: string)
    ensures ParseVersion(text).Some? <==> SomeShape(text)
  {
    if ParseVersion(text).Some? {
      var op, major, minor, patch := ShapeOfParse(text);
    }
    if SomeShape(text) {
      var op, major, minor, patch :| HasShape(text, op, major, minor, patch);
      ParseOfShape(text, op, major, minor, patch);
    }
  }

  predicate Older(a: Version, b: Version) {
    a.major < b.major ||
    (a.major == b.major && (a.minor < b.minor || (a.minor == b.minor && a.patch < b.patch)))
  }

  /** `target` can stand in for `source`: both parse, the operators agree, and the target's
      numbers are not older. */
  predicate VersionCovers(source: string, target: string) {
    var s, t := ParseVersion(source), ParseVersion(target);
    s.Some? && t.Some? && s.value.op == t.value.op && !Older(t.value, s.value)
  }

  /** Acceptance carries along a chain of branches, and two texts that accept each other name the
      same version. */
  lemma VersionCoversIsOrder(s: string, t: string, u: string)
    ensures VersionCovers(s, t) && VersionCovers(t, u) ==> VersionCovers(s, u)
    ensures VersionCovers(s, t) && VersionCovers(t, s) ==> ParseVersion(s) == ParseVersion(t)
    ensures ParseVersion(s).Some? ==> VersionCovers(s, s)
  {
  }

  // ---- The order in numbers and in digits ----

  predicate AllDigits(s: string) {
    forall i | 0 <= i < |s| :: IsDigit(s[i])
  }

  /** The accepted numbers, by their characters. */
  lemma NumbersByCharacter(s: string)
    ensures IsNumber(s) <==> 0 < |s| < 10 && forall c | c in s :: c in "0123456789"
  {
    var digits := "0123456789";
    assert forall c :: IsDigit(c) <==> c in digits by {
      forall c | IsDigit(c) ensures c in digits {
        assert digits[c as int - '0' as int] == c;
      }
    }
    if forall c | c in s :: c in digits {
      assert forall i | 0 <= i < |s| :: s[i] in s;
    }
  }

  function PowerOfTen(n: nat): nat {
    if n == 0 then 1 else 10 * PowerOfTen(n - 1)
  }

  lemma {:induction false} ValueFits(s: string)
    requires AllDigits(s)
    ensures ValueOf(s) < PowerOfTen(|s|)
  {
    if s != [] {
      ValueFits(s[..|s| - 1]);
      assert IsDigit(s[|s| - 1]);
    }
  }

  lemma NumberIsBelowABillion(s: string)
    requires IsNumber(s)
    ensures ValueOf(s) < 1_000_000_000
  {
    ValueFits(s);
    assert PowerOfTen(3) == 1000 && PowerOfTen(6) == 1_000_000 && PowerOfTen(9) == 1_000_000_000;
  }

  /** Where two digit strings of the same length first differ, the smaller digit decides. */
  ghost predicate DiffersFirstAt(a: string, b: string, k: nat) {
    k < |a| && k < |b| && a[..k] == b[..k] && a[k] != b[k]
  }

  /** Numbers written with the same number of digits are ordered as text. */
  lemma {:induction false} ValueOrderIsTextOrder(a: string, b: string, k: nat)
    requires AllDigits(a) && AllDigits(b) && |a| == |b| && DiffersFirstAt(a, b, k)
    ensures ValueOf(a) < ValueOf(b) <==> a[k] < b[k]
    ensures ValueOf(b) < ValueOf(a) <==> b[k] < a[k]
    decreases |a|
  {
    var n := |a| - 1;
    assert IsDigit(a[n]) && IsDigit(b[n]);
    if k < n {
      assert a[..n][..k] == a[..k] && b[..n][..k] == b[..k];
      ValueOrderIsTextOrder(a[..n], b[..n], k);
    }
  }

  /** A leading zero does not count. */
  lemma {:induction false} LeadingZero(s: string)
    requires AllDigits(s)
    ensures AllDigits("0" + s) && ValueOf("0" + s) == ValueOf(s)
  {
    var z := "0" + s;
    if s == [] {
      assert z == "0" && z[..0] == "";
    } else {
      LeadingZero(s[..|s| - 1]);
      assert z[..|z| - 1] == "0" + s[..|s| - 1];
    }
  }

  function VersionText(op: string, major: string, minor: string, patch: string): string {
    op + major + "." + minor + "." + patch
  }

  /** The three numbers as one. */
  function Rank(major: string, minor: string, patch: string): nat
    requires IsNumber(major) && IsNumber(minor) && IsNumber(patch)
  {
    ValueOf(major) * 1_000_000_000_000_000_000 + ValueOf(minor) * 1_000_000_000 + ValueOf(patch)
  }

  lemma RankCompares(a: nat, b: nat, c: nat, x: nat, y: nat, z: nat)
    requires b < 1_000_000_000 && c < 1_000_000_000 && y < 1_000_000_000 && z < 1_000_000_000
    ensures a * 1_000_000_000_000_000_000 + b * 1_000_000_000 + c <=
            x * 1_000_000_000_000_000_000 + y * 1_000_000_000 + z <==>
            a < x || (a == x && (b < y || (b == y && c <= z)))
  {
  }

  lemma TextHasShape(op: string, major: string, minor: string, patch: string)
    requires op in OPERATORS && IsNumber(major) && IsNumber(minor) && IsNumber(patch)
    ensures HasShape(VersionText(op, major, minor, patch), op, major, minor, patch)
  {
    assert VersionText(op, major, minor, patch) == op + Dotted(major, Dotted(minor, patch));
  }

  /** The target covers the source exactly when the operators agree and the source's three numbers, read as
      one, are at most the target's. */
  lemma VersionCoversExactly(op: string, a: string, b: string, c: string, op': string, x: string, y: string, z: string)
    requires op in {"", "=", "^", "~", ">="} && op' in {"", "=", "^", "~", ">="}
    requires IsNumber(a) && IsNumber(b) && IsNumber(c) && IsNumber(x) && IsNumber(y) && IsNumber(z)
    ensures VersionCovers(VersionText(op, a, b, c), VersionText(op', x, y, z)) <==>
            op == op' && Rank(a, b, c) <= Rank(x, y, z)
  {
    TextHasShape(op, a, b, c);
    TextHasShape(op', x, y, z);
    ParseOfShape(VersionText(op, a, b, c), op, a, b, c);
    ParseOfShape(VersionText(op', x, y, z), op', x, y, z);
    NumberIsBelowABillion(b);
    NumberIsBelowABillion(c);
    NumberIsBelowABillion(y);
    NumberIsBelowABillion(z);
    RankCompares(ValueOf(a), ValueOf(b), ValueOf(c), ValueOf(x), ValueOf(y), ValueOf(z));
  }

  lemma ShapeIsText(text: string, op: string, major: string, minor: string, patch: string)
    requires HasShape(text, op, major, minor, patch)
    ensures text == VersionText(op, major, minor, patch)
  {
  }

  /** A text that is not an operator and three numbers covers nothing and is not covered. */
  lemma CoversOnlyVersions(source: string, target: string)
    returns (op: string, a: string, b: string, c: string, x: string, y: string, z: string)
    requires VersionCovers(source, target)
    ensures op in {"", "=", "^", "~", ">="}
    ensures IsNumber(a) && IsNumber(b) && IsNumber(c) && IsNumber(x) && IsNumber(y) && IsNumber(z)
    ensures source == VersionText(op, a, b, c) && target == VersionText(op, x, y, z)
  {
    var op': string;
    op, a, b, c := ShapeOfParse(source);
    op', x, y, z := ShapeOfParse(target);
    ShapeIsText(source, op, a, b, c);
    ShapeIsText(target, op', x, y, z);
  }

  /** A bump on the source beyond the target's version is not covered. The other way round it is. */
  lemma NewerSourceIsNotCovered()
    ensures !VersionCovers("1.0.5", "1.0.3") && VersionCovers("1.0.3", "1.0.5")
  {
    assert IsNumber("1") && IsNumber("0") && IsNumber("5") && IsNumber("3");
    assert VersionText("", "1", "0", "5") == "1.0.5" && VersionText("", "1", "0", "3") == "1.0.3";
    VersionCoversExactly("", "1", "0", "5", "", "1", "0", "3");
    VersionCoversExactly("", "1", "0", "3", "", "1", "0", "5");
    assert "5"[..0] == "3"[..0];
    ValueOrderIsTextOrder("3", "5", 0);
  }
}
