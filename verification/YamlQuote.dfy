/** Quoting of a text as a YAML double-quoted scalar, and the decoder that undoes it. */
module YamlQuote {
  import opened Basics
  import opened Sequences

  // ---- Characters that need an escape ----

  /** Bitwise "and" of natural numbers. */
  function BitAnd(a: nat, b: nat): nat {
    if a == 0 || b == 0 then 0 else (a % 2) * (b % 2) + 2 * BitAnd(a / 2, b / 2)
  }

  function PowerOf2(k: nat): (p: nat)
    ensures p > 0
  {
    if k == 0 then 1 else 2 * PowerOf2(k - 1)
  }

  lemma {:induction false} LowBits(n: nat, k: nat)
    ensures BitAnd(n, PowerOf2(k) - 1) == n % PowerOf2(k)
  {
    if k == 0 {
    } else if n == 0 {
    } else {
      var p := PowerOf2(k - 1);
      LowBits(n / 2, k - 1);
      assert (2 * p - 1) / 2 == p - 1 && (2 * p - 1) % 2 == 1;
      HalfMod(n, p);
    }
  }

  lemma HalfMod(n: nat, p: nat)
    requires p > 0
    ensures n % (2 * p) == n % 2 + 2 * (n / 2 % p)
  {
    var q, r := n / 2 / p, n / 2 % p;
    assert n / 2 == q * p + r;
    assert n == 2 * (n / 2) + n % 2;
    assert 2 * (q * p) == q * (2 * p);
    assert n == q * (2 * p) + (2 * r + n % 2);
    assert 0 <= 2 * r + n % 2 < 2 * p;
    ModUnique(n, 2 * p, q, 2 * r + n % 2);
  }

  lemma ModUnique(n: nat, m: nat, q: nat, r: nat)
    requires m > 0 && n == q * m + r && r < m
    ensures n % m == r
  {
    var d := n / m - q;
    assert n == n / m * m + n % m;
    assert d * m == n / m * m - q * m;
    assert d * m == r - n % m;
    if d != 0 {
      FarMultiple(d, m);
    }
  }

  lemma FarMultiple(d: int, m: nat)
    requires d != 0
    ensures d * m >= m || -(d * m) >= m
  {
    if d > 0 {
      assert d * m == (d - 1) * m + m;
    } else {
      assert -(d * m) == (-d - 1) * m + m;
    }
  }

  predicate IsControl(c: char) {
    c as int < 0x20 || 0x7F <= c as int <= 0x9F
  }

  predicate IsNoncharacter(c: char) {
    0xFDD0 <= c as int <= 0xFDEF || BitAnd(c as int, 0xFFFE) == 0xFFFE
  }

  /** The bit mask picks the last two code points of each plane. */
  lemma NoncharactersByPlane(c: char)
    ensures IsNoncharacter(c) <==> 0xFDD0 <= c as int <= 0xFDEF || c as int % 0x1_0000 >= 0xFFFE
  {
    var n := c as int;
    if n > 0 {
      LowBits(n / 2, 15);
      assert PowerOf2(5) == 32;
      assert PowerOf2(10) == 1024;
      assert PowerOf2(15) == 0x8000;
      assert BitAnd(n, 0xFFFE) == 2 * (n / 2 % 0x8000);
      HalfMod(n, 0x8000);
    }
  }

  // ---- The printer ----

  function HexDigit(d: nat): char
    requires d < 16
  {
    if d < 10 then ('0' as int + d) as char else ('a' as int + d - 10) as char
  }

  /** The `width` low hex digits of `n`. */
  function Hex(n: nat, width: nat): (s: string)
    ensures |s| == width
  {
    if width == 0 then "" else Hex(n / 16, width - 1) + [HexDigit(n % 16)]
  }

  function Escaped(c: char): string {
    if c == '\\' then "\\\\"
    else if c == '"' then "\\\""
    else if c == '\n' then "\\n"
    else if c == '\r' then "\\r"
    else if c == '\t' then "\\t"
    else if IsControl(c) || IsNoncharacter(c) then
      if c as int > 0xFFFF then "\\U" + Hex(c as int, 8) else "\\u" + Hex(c as int, 4)
    else [c]
  }

  function Body(value: string): string {
    if value == "" then "" else Body(value[..|value| - 1]) + Escaped(value[|value| - 1])
  }

  function Quoted(value: string): string {
    "\"" + Body(value) + "\""
  }

  // ---- The decoder: sections 5.7 and 7.3.1 of YAML 1.2.2, for a scalar on one line ----

  function HexValueOf(c: char): Option<nat> {
    if '0' <= c <= '9' then Some(c as int - '0' as int)
    else if 'a' <= c <= 'f' then Some(c as int - 'a' as int + 10)
    else if 'A' <= c <= 'F' then Some(c as int - 'A' as int + 10)
    else None
  }

  function HexValue(s: string): Option<nat> {
    if s == "" then Some(0)
    else
      match (HexValue(s[..|s| - 1]), HexValueOf(s[|s| - 1]))
      case (Some(high), Some(low)) => Some(16 * high + low)
      case _ => None
  }

  predicate IsScalar(n: nat) {
    n < 0xD800 || 0xE000 <= n < 0x11_0000
  }

  /** The one-character escapes. */
  function SimpleEscape(c: char): Option<char> {
    match c
    case '0' => Some(0 as char)
    case 'a' => Some(7 as char)
    case 'b' => Some(8 as char)
    case 't' => Some('\t')
    case '\t' => Some('\t')
    case 'n' => Some('\n')
    case 'v' => Some(11 as char)
    case 'f' => Some(12 as char)
    case 'r' => Some('\r')
    case 'e' => Some(27 as char)
    case ' ' => Some(' ')
    case '"' => Some('"')
    case '/' => Some('/')
    case '\\' => Some('\\')
    case 'N' => Some(0x85 as char)
    case '_' => Some(0xA0 as char)
    case 'L' => Some(0x2028 as char)
    case 'P' => Some(0x2029 as char)
    case _ => None
  }

  /** How many hex digits follow the letter of an escape. */
  function HexWidth(c: char): nat {
    if c == 'x' then 2 else if c == 'u' then 4 else if c == 'U' then 8 else 0
  }

  datatype Item = Item(c: char, length: nat)

  /** The character at the start of `s`, and how much of `s` spells it. */
  function NextItem(s: string): (item: Option<Item>)
    requires s != ""
    ensures item.Some? ==> 1 <= item.value.length <= |s|
  {
    if s[0] == '"' then None
    else if s[0] != '\\' then (if s[0] == '\t' || s[0] as int >= 0x20 then Some(Item(s[0], 1)) else None)
    else if |s| < 2 then None
    else
      var width := HexWidth(s[1]);
      if width == 0 then
        match SimpleEscape(s[1])
        case Some(c) => Some(Item(c, 2))
        case None => None
      else if |s| < 2 + width then None
      else
        match HexValue(s[2..2 + width])
        case Some(n) => if IsScalar(n) then Some(Item(n as char, 2 + width)) else None
        case None => None
  }

  function DecodeBody(s: string): Option<string>
    decreases |s|
  {
    if s == "" then Some("")
    else
      match NextItem(s)
      case None => None
      case Some(item) =>
        match DecodeBody(s[item.length..])
        case None => None
        case Some(rest) => Some([item.c] + rest)
  }

  function Decode(text: string): Option<string> {
    if |text| >= 2 && text[0] == '"' && text[|text| - 1] == '"' then DecodeBody(text[1..|text| - 1]) else None
  }

  // ---- The decoder undoes the printer ----

  lemma HexDigitValue(d: nat)
    requires d < 16
    ensures HexValueOf(HexDigit(d)) == Some(d)
  {
  }

  function PowerOf16(k: nat): nat {
    if k == 0 then 1 else 16 * PowerOf16(k - 1)
  }

  lemma {:induction false} HexRoundTrip(n: nat, width: nat)
    requires n < PowerOf16(width)
    ensures HexValue(Hex(n, width)) == Some(n)
  {
    if width > 0 {
      HexRoundTrip(n / 16, width - 1);
      HexDigitValue(n % 16);
      var s := Hex(n, width);
      assert s[..|s| - 1] == Hex(n / 16, width - 1) && s[|s| - 1] == HexDigit(n % 16);
    }
  }

  /** Each escaped character decodes to itself, whatever follows it. */
  lemma NextItemOfEscaped(c: char, rest: string)
    ensures NextItem(Escaped(c) + rest) == Some(Item(c, |Escaped(c)|))
  {
    var e, n := Escaped(c), c as int;
    var s := e + rest;
    assert s[0] == e[0];
    if |e| >= 2 { assert s[1] == e[1]; }
    if (IsControl(c) || IsNoncharacter(c)) && c !in {'\\', '"', '\n', '\r', '\t'} {
      assert PowerOf16(4) == 0x1_0000;
      assert PowerOf16(8) == 0x1_0000_0000;
      if n > 0xFFFF {
        assert s[2..10] == Hex(n, 8);
        HexRoundTrip(n, 8);
      } else {
        assert s[2..6] == Hex(n, 4);
        HexRoundTrip(n, 4);
      }
    }
  }

  lemma {:induction false} BodyFromFront(value: string)
    requires value != ""
    ensures Body(value) == Escaped(value[0]) + Body(value[1..])
    decreases |value|
  {
    if |value| == 1 {
      assert value[..0] == "" && value[1..] == "";
    } else {
      var init, last := value[..|value| - 1], value[|value| - 1];
      BodyFromFront(init);
      assert init[1..] == value[1..][..|value| - 2] && value[1..][|value| - 2] == last;
      assert Body(value[1..]) == Body(init[1..]) + Escaped(last);
      Associate(Escaped(value[0]), Body(init[1..]), Escaped(last));
    }
  }

  lemma {:induction false} BodyRoundTrip(value: string)
    ensures DecodeBody(Body(value)) == Some(value)
    decreases |value|
  {
    if value != "" {
      BodyFromFront(value);
      BodyRoundTrip(value[1..]);
      DecodeFirst(value[0], Body(value[1..]), value[1..]);
      assert value == [value[0]] + value[1..];
    }
  }

  lemma DecodeFirst(c: char, rest: string, value: string)
    requires DecodeBody(rest) == Some(value)
    ensures DecodeBody(Escaped(c) + rest) == Some([c] + value)
  {
    var e := Escaped(c);
    NextItemOfEscaped(c, rest);
    assert (e + rest)[|e|..] == rest;
  }

  /** Quoting any text gives a double-quoted scalar that decodes to that text. */
  lemma QuoteRoundTrip(value: string)
    ensures Decode(Quoted(value)) == Some(value)
  {
    var text := Quoted(value);
    assert text[1..|text| - 1] == Body(value);
    BodyRoundTrip(value);
  }

  lemma BodyGrows(value: string, i: nat, start: string)
    requires i < |value|
    ensures start + Body(value[..i]) + Escaped(value[i]) == start + Body(value[..i + 1])
  {
    var init := value[..i];
    assert value[..i + 1][..i] == init;
    assert Body(value[..i + 1]) == Body(init) + Escaped(value[i]);
    assert start + Body(init) + Escaped(value[i]) == start + (Body(init) + Escaped(value[i]));
  }

  method QuoteYamlScalar(value: string) returns (out: string)
    ensures out == Quoted(value)
    ensures Decode(out) == Some(value)
  {
    out := "\"";
    for i := 0 to |value|
      invariant out == "\"" + Body(value[..i])
    {
      BodyGrows(value, i, "\"");
      out := out + Escaped(value[i]);
    }
    assert value[..|value|] == value;
    out := out + "\"";
    QuoteRoundTrip(value);
  }

  // ---- The shape of the output ----

  predicate IsHexText(s: string) {
    forall i | 0 <= i < |s| :: HexValueOf(s[i]).Some?
  }

  /** A plain character: printable, and neither a quote nor a backslash. */
  predicate IsPlain(c: char) {
    c != '"' && c != '\\' && !IsControl(c) && !IsNoncharacter(c)
  }

  /** A body of plain characters and of the escapes that the printer uses: a letter, four hex digits
      after `u`, or eight after `U`. It has no bare quote and no line break. */
  predicate IsStrictBody(s: string)
    decreases |s|
  {
    s == "" ||
    (IsPlain(s[0]) && IsStrictBody(s[1..])) ||
    (s[0] == '\\' && |s| >= 2 &&
     ((s[1] in {'\\', '"', 'n', 'r', 't'} && IsStrictBody(s[2..]))
      || (s[1] == 'u' && |s| >= 6 && IsHexText(s[2..6]) && IsStrictBody(s[6..]))
      || (s[1] == 'U' && |s| >= 10 && IsHexText(s[2..10]) && IsStrictBody(s[10..]))))
  }

  lemma {:induction false} HexIsHexText(n: nat, width: nat)
    ensures IsHexText(Hex(n, width))
  {
    if width > 0 {
      HexIsHexText(n / 16, width - 1);
      HexDigitValue(n % 16);
    }
  }

  lemma EscapedIsStrict(c: char, rest: string)
    requires IsStrictBody(rest)
    ensures IsStrictBody(Escaped(c) + rest)
  {
    var e := Escaped(c);
    var s := e + rest;
    assert s[0] == e[0] && s[|e|..] == rest;
    if |e| >= 2 { assert s[1] == e[1]; }
    if (IsControl(c) || IsNoncharacter(c)) && c !in {'\\', '"', '\n', '\r', '\t'} {
      if c as int > 0xFFFF {
        assert s[2..10] == Hex(c as int, 8);
        HexIsHexText(c as int, 8);
      } else {
        assert s[2..6] == Hex(c as int, 4);
        HexIsHexText(c as int, 4);
      }
    }
  }

  /** The quoted text stays on one line, and each escape in it has its full width. */
  lemma {:induction false} BodyIsStrict(value: string)
    ensures IsStrictBody(Body(value))
    decreases |value|
  {
    if value != "" {
      BodyFromFront(value);
      BodyIsStrict(value[1..]);
      EscapedIsStrict(value[0], Body(value[1..]));
    }
  }

  lemma {:induction false} StrictBodyIsOneLine(s: string)
    requires IsStrictBody(s)
    ensures forall i | 0 <= i < |s| :: s[i] != '\n' && s[i] != '\r'
    decreases |s|
  {
    if s != "" {
      var step := if IsPlain(s[0]) then 1 else if s[1] == 'u' then 6 else if s[1] == 'U' then 10 else 2;
      StrictBodyIsOneLine(s[step..]);
      forall i | 0 <= i < |s| ensures s[i] != '\n' && s[i] != '\r' {
        if i >= step {
          assert s[i] == s[step..][i - step];
        } else if i >= 2 {
          assert s[i] == s[2..step][i - 2];
        }
      }
    }
  }

  // ---- The characters of a quoted text ----

  /** No control character and no noncharacter. */
  predicate IsPrintable(c: char) {
    var n := c as int;
    n >= 0x20 && !(0x7F <= n <= 0x9F) && !(0xFDD0 <= n <= 0xFDEF) && n % 0x1_0000 < 0xFFFE
  }

  lemma PlainIsPrintable(c: char)
    ensures IsPlain(c) <==> c != '"' && c != '\\' && IsPrintable(c)
  {
    NoncharactersByPlane(c);
  }

  lemma {:induction false} StrictBodyIsPrintable(s: string)
    requires IsStrictBody(s)
    ensures forall i | 0 <= i < |s| :: IsPrintable(s[i])
    decreases |s|
  {
    if s != "" {
      var step := if IsPlain(s[0]) then 1 else if s[1] == 'u' then 6 else if s[1] == 'U' then 10 else 2;
      StrictBodyIsPrintable(s[step..]);
      PlainIsPrintable(s[0]);
      forall i | 0 <= i < |s| ensures IsPrintable(s[i]) {
        if i >= step {
          assert s[i] == s[step..][i - step];
        } else if i >= 2 {
          assert s[i] == s[2..step][i - 2];
        }
      }
    }
  }

  /** Every character of a quoted text can be printed. */
  lemma QuotedIsPrintable(value: string)
    ensures forall i | 0 <= i < |Quoted(value)| :: IsPrintable(Quoted(value)[i])
  {
    BodyIsStrict(value);
    StrictBodyIsPrintable(Body(value));
  }

  lemma EscapedPlain(c: char)
    requires c != '"' && c != '\\' && IsPrintable(c)
    ensures Escaped(c) == [c]
  {
    PlainIsPrintable(c);
  }

  lemma {:induction false} PlainBodyStays(value: string)
    requires forall i | 0 <= i < |value| :: value[i] != '"' && value[i] != '\\' && IsPrintable(value[i])
    ensures Body(value) == value
    decreases |value|
  {
    if value != "" {
      var init, last := value[..|value| - 1], value[|value| - 1];
      PlainBodyStays(init);
      EscapedPlain(last);
      assert value == init + [last];
    }
  }

  /** A text of printable characters without a quote or a backslash is only put between quotes. */
  lemma PlainTextStays(value: string)
    requires forall i | 0 <= i < |value| :: value[i] != '"' && value[i] != '\\' && IsPrintable(value[i])
    ensures Quoted(value) == "\"" + value + "\""
  {
    PlainBodyStays(value);
  }
}
