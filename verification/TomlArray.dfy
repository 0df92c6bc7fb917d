/**
 Printing lists of strings as TOML arrays, and reading them back.

 The printer quotes each item and escapes quotes, backslashes and control characters,
 the latter as four hex digits. The reader accepts arrays of basic strings as TOML
 v1.0.0 defines them: escapes of both lengths, blanks, line breaks, comments and a
 trailing comma between the brackets; multi-line and literal strings, and values that
 are no strings, it rejects. What is printed reads back as the list it came from,
 whatever text follows, so no two lists print alike and no item can end its own
 string or the array.
 */
module TomlArray {
  import opened Common

  // ------------------------------------------------------------------- printing

  predicate IsControl(c: char) {
    c <= '\U{1F}' || '\U{7F}' <= c <= '\U{9F}'
  }

  function HexDigit(n: nat): char
    requires n < 16
  {
    if n < 10 then '0' + n as char else 'A' + (n - 10) as char
  }

  /** `{:04X}` of a code point below U+10000. */
  function Hex4(n: nat): string
    requires n < 0x1_0000
  {
    [HexDigit(n / 4096), HexDigit(n / 256 % 16), HexDigit(n / 16 % 16), HexDigit(n % 16)]
  }

  function EscapeChar(c: char): string {
    if c == '\\' then "\\\\"
    else if c == '"' then "\\\""
    else if IsControl(c) then "\\u" + Hex4(c as nat)
    else [c]
  }

  function Escape(value: string): string {
    if value == [] then [] else EscapeChar(value[0]) + Escape(value[1..])
  }

  method EscapeTomlString(value: string) returns (escaped: string)
    ensures escaped == Escape(value)
  {
    escaped := "";
    assert value[0..] == value;
    for i := 0 to |value|
      invariant escaped + Escape(value[i..]) == Escape(value)
    {
      var ch := value[i];
      assert value[i..][1..] == value[i + 1..];
      Reassociate(escaped, EscapeChar(ch), Escape(value[i + 1..]));
      if ch == '\\' {
        escaped := escaped + "\\\\";
      } else if ch == '"' {
        escaped := escaped + "\\\"";
      } else if IsControl(ch) {
        escaped := escaped + ("\\u" + Hex4(ch as nat));
      } else {
        escaped := escaped + [ch];
      }
    }
    assert value[|value|..] == [];
  }

  function Join(items: seq<string>, separator: string): string {
    if items == [] then ""
    else if |items| == 1 then items[0]
    else items[0] + separator + Join(items[1..], separator)
  }

  function Quoted(value: string): string {
    "\"" + Escape(value) + "\""
  }

  function RenderStringArray(values: seq<string>): string {
    "[" + Join(seq(|values|, i requires 0 <= i < |values| => Quoted(values[i])), ", ") + "]"
  }

  // -------------------------------------------------------------------- reading

  datatype Read<+T> = Failed | Got(value: T, rest: string)

  function HexValue(c: char): (r: int)
    ensures -1 <= r < 16
  {
    if '0' <= c <= '9' then c as int - '0' as int
    else if 'A' <= c <= 'F' then c as int - 'A' as int + 10
    else if 'a' <= c <= 'f' then c as int - 'a' as int + 10
    else -1
  }

  /** The number the hex digits spell; negative when one is no hex digit. */
  function ParseHex(s: string): int {
    if s == [] then 0
    else
      var high, low := ParseHex(s[..|s| - 1]), HexValue(s[|s| - 1]);
      if high < 0 || low < 0 then -1 else 16 * high + low
  }

  predicate IsScalar(n: int) {
    0 <= n < 0xD800 || 0xE000 <= n < 0x11_0000
  }

  function ParseCodePoint(s: string, digits: nat): (r: Read<char>)
    ensures r.Got? ==> |r.rest| <= |s|
  {
    if |s| < digits then Failed
    else
      var n := ParseHex(s[..digits]);
      if IsScalar(n) then Got(n as char, s[digits..]) else Failed
  }

  /** What follows a backslash. */
  function ParseEscape(s: string): (r: Read<char>)
    ensures r.Got? ==> |r.rest| < |s|
  {
    if s == [] then Failed
    else
      match s[0]
      case 'b' => Got('\U{08}', s[1..])
      case 't' => Got('\t', s[1..])
      case 'n' => Got('\n', s[1..])
      case 'f' => Got('\U{0C}', s[1..])
      case 'r' => Got('\r', s[1..])
      case '"' => Got('"', s[1..])
      case '\\' => Got('\\', s[1..])
      case 'u' => ParseCodePoint(s[1..], 4)
      case 'U' => ParseCodePoint(s[1..], 8)
      case _ => Failed
  }

  /** Characters a basic string may hold as they are. */
  predicate IsUnescaped(c: char) {
    c == '\t' || (' ' <= c && c != '"' && c != '\\' && c != '\U{7F}')
  }

  /** A basic string after its opening quote. */
  function ParseBody(s: string): (r: Read<string>)
    ensures r.Got? ==> |r.rest| < |s|
  {
    if s == [] then Failed
    else if s[0] == '"' then Got("", s[1..])
    else if s[0] == '\\' then
      match ParseEscape(s[1..])
      case Failed => Failed
      case Got(c, rest) => Prepend(c, ParseBody(rest))
    else if IsUnescaped(s[0]) then Prepend(s[0], ParseBody(s[1..]))
    else Failed
  }

  function Prepend(c: char, tail: Read<string>): Read<string> {
    match tail
    case Failed => Failed
    case Got(value, rest) => Got([c] + value, rest)
  }

  /** A basic string; three quotes open a multi-line string instead. */
  function ParseBasicString(s: string): (r: Read<string>)
    ensures r.Got? ==> |r.rest| < |s|
  {
    if s == [] || s[0] != '"' || "\"\"\"" <= s then Failed else ParseBody(s[1..])
  }

  function AfterComment(s: string): (rest: string)
    ensures |rest| <= |s|
  {
    if s == [] || s[0] == '\n' || (s[0] == '\r' && 1 < |s| && s[1] == '\n') then s
    else if s[0] == '\t' || (' ' <= s[0] && s[0] != '\U{7F}') then AfterComment(s[1..])
    else s
  }

  /** Spaces, tabs, line breaks and comments. */
  function SkipBlank(s: string): (rest: string)
    ensures |rest| <= |s|
    decreases |s|
  {
    if s == [] then s
    else if s[0] == ' ' || s[0] == '\t' || s[0] == '\n' then SkipBlank(s[1..])
    else if s[0] == '\r' && 1 < |s| && s[1] == '\n' then SkipBlank(s[2..])
    else if s[0] == '#' then SkipBlank(AfterComment(s[1..]))
    else s
  }

  /** The items up to the closing bracket; a trailing comma is allowed. */
  function ParseItems(s: string): Read<seq<string>>
    decreases |s|
  {
    var at := SkipBlank(s);
    if at == [] then Failed
    else if at[0] == ']' then Got([], at[1..])
    else
      match ParseBasicString(at)
      case Failed => Failed
      case Got(value, rest) =>
        var next := SkipBlank(rest);
        if next == [] then Failed
        else if next[0] == ']' then Got([value], next[1..])
        else if next[0] == ',' then
          match ParseItems(next[1..])
          case Failed => Failed
          case Got(values, end) => Got([value] + values, end)
        else Failed
  }

  function ParseArray(s: string): Read<seq<string>> {
    if s == [] || s[0] != '[' then Failed else ParseItems(s[1..])
  }

  // ----------------------------------------------------------------- round trip

  lemma {:induction false} ParseHexSnoc(s: string, c: char)
    ensures ParseHex(s + [c]) == if ParseHex(s) < 0 || HexValue(c) < 0 then -1 else 16 * ParseHex(s) + HexValue(c)
  {
    assert (s + [c])[..|s|] == s;
  }

  lemma SplitHex(n: nat)
    requires n < 0x1_0000
    ensures n / 4096 < 16 && n == 16 * (16 * (16 * (n / 4096) + n / 256 % 16) + n / 16 % 16) + n % 16
  {
    assert n / 256 == 16 * (n / 4096) + n / 256 % 16 by {
      assert n / 4096 == n / 256 / 16;
    }
    assert n / 16 == 16 * (n / 256) + n / 16 % 16 by {
      assert n / 256 == n / 16 / 16;
    }
  }

  lemma FourDigits(a: char, b: char, c: char, d: char)
    requires HexValue(a) >= 0 && HexValue(b) >= 0 && HexValue(c) >= 0 && HexValue(d) >= 0
    ensures ParseHex([a, b, c, d]) == 16 * (16 * (16 * HexValue(a) + HexValue(b)) + HexValue(c)) + HexValue(d)
  {
    ParseHexSnoc([], a);
    ParseHexSnoc([a], b);
    ParseHexSnoc([a, b], c);
    ParseHexSnoc([a, b, c], d);
    assert [] + [a] == [a] && [a] + [b] == [a, b] && [a, b] + [c] == [a, b, c] && [a, b, c] + [d] == [a, b, c, d];
  }

  lemma Hex4ReadsBack(n: nat)
    requires n < 0x1_0000
    ensures |Hex4(n)| == 4 && ParseHex(Hex4(n)) == n
  {
    var a, b, c, d := n / 4096, n / 256 % 16, n / 16 % 16, n % 16;
    SplitHex(n);
    FourDigits(HexDigit(a), HexDigit(b), HexDigit(c), HexDigit(d));
  }

  /** A control character prints as a four-digit escape that reads as itself. */
  lemma ControlReadsBack(c: char, rest: string)
    requires IsControl(c)
    ensures EscapeChar(c) == "\\u" + Hex4(c as nat) && |EscapeChar(c)| == 6
    ensures ParseEscape((EscapeChar(c) + rest)[1..]) == Got(c, rest)
  {
    var digits := Hex4(c as nat);
    Hex4ReadsBack(c as nat);
    var s := (EscapeChar(c) + rest)[1..];
    assert s == "u" + (digits + rest);
    assert s[1..] == digits + rest;
    assert (digits + rest)[..4] == digits && (digits + rest)[4..] == rest;
  }

  lemma CharReadsBack(c: char, rest: string)
    ensures ParseBody(EscapeChar(c) + rest) == Prepend(c, ParseBody(rest))
  {
    var s := EscapeChar(c) + rest;
    if c == '\\' || c == '"' {
      assert s[1..] == [c] + rest;
      assert ([c] + rest)[1..] == rest;
    } else if IsControl(c) {
      ControlReadsBack(c, rest);
    } else {
      assert s[1..] == rest;
    }
  }

  lemma {:induction false} BodyReadsBack(value: string, rest: string)
    ensures ParseBody(Escape(value) + ("\"" + rest)) == Got(value, rest)
  {
    if value == [] {
      assert Escape(value) + ("\"" + rest) == "\"" + rest;
      assert ("\"" + rest)[1..] == rest;
    } else {
      BodyReadsBack(value[1..], rest);
      CharReadsBack(value[0], Escape(value[1..]) + ("\"" + rest));
      Reassociate(EscapeChar(value[0]), Escape(value[1..]), "\"" + rest);
      assert [value[0]] + value[1..] == value;
    }
  }

  lemma QuotedThen(value: string, rest: string)
    ensures Quoted(value) + rest == "\"" + (Escape(value) + ("\"" + rest))
  {
    Reassociate("\"" + Escape(value), "\"", rest);
    Reassociate("\"", Escape(value), "\"" + rest);
  }

  /** A printed item does not open a multi-line string. */
  lemma NotThreeQuotes(value: string, rest: string)
    requires rest != [] && rest[0] != '"'
    ensures !("\"\"\"" <= "\"" + (Escape(value) + ("\"" + rest)))
  {
    var s := "\"" + (Escape(value) + ("\"" + rest));
    if value == [] {
      assert Escape(value) == [];
      assert s[2] == rest[0];
    } else {
      assert s[1] == Escape(value)[0];
    }
  }

  /** A printed item reads back, if no quote follows it. */
  lemma QuotedReadsBack(value: string, rest: string)
    requires rest != [] && rest[0] != '"'
    ensures ParseBasicString(Quoted(value) + rest) == Got(value, rest)
  {
    var body := Escape(value) + ("\"" + rest);
    QuotedThen(value, rest);
    NotThreeQuotes(value, rest);
    assert ("\"" + body)[1..] == body;
    BodyReadsBack(value, rest);
  }

  function Items(values: seq<string>): seq<string> {
    seq(|values|, i requires 0 <= i < |values| => Quoted(values[i]))
  }

  lemma JoinUnfolds(values: seq<string>)
    requires |values| > 1
    ensures Join(Items(values), ", ") == Quoted(values[0]) + ", " + Join(Items(values[1..]), ", ")
  {
    assert Items(values)[1..] == Items(values[1..]);
  }

  lemma LastItemReadsBack(value: string, rest: string)
    ensures ParseItems(Quoted(value) + ("]" + rest)) == Got([value], rest)
  {
    QuotedReadsBack(value, "]" + rest);
    var s := Quoted(value) + ("]" + rest);
    assert s[0] == '"';
    assert SkipBlank(s) == s && SkipBlank("]" + rest) == "]" + rest;
    assert ("]" + rest)[1..] == rest;
  }

  lemma ItemReadsBack(value: string, more: string, values: seq<string>, end: string)
    requires ParseItems(" " + more) == Got(values, end)
    ensures ParseItems(Quoted(value) + ("," + (" " + more))) == Got([value] + values, end)
  {
    var next := "," + (" " + more);
    QuotedReadsBack(value, next);
    var s := Quoted(value) + next;
    assert s[0] == '"';
    assert SkipBlank(s) == s && SkipBlank(next) == next;
    assert next[1..] == " " + more;
  }

  function Closed(values: seq<string>, rest: string): string {
    Join(Items(values), ", ") + ("]" + rest)
  }

  lemma ClosedUnfolds(values: seq<string>, rest: string)
    requires |values| > 1
    ensures Closed(values, rest) == Quoted(values[0]) + ("," + (" " + Closed(values[1..], rest)))
  {
    JoinUnfolds(values);
    var item, more := Quoted(values[0]), Join(Items(values[1..]), ", ");
    Reassociate(item + ", ", more, "]" + rest);
    Reassociate(item, ", ", Closed(values[1..], rest));
    assert ", " + Closed(values[1..], rest) == "," + (" " + Closed(values[1..], rest));
  }

  lemma {:induction false} ItemsReadBack(values: seq<string>, rest: string)
    requires values != []
    ensures ParseItems(Closed(values, rest)) == Got(values, rest)
  {
    if |values| == 1 {
      LastItemReadsBack(values[0], rest);
      assert [values[0]] == values;
      assert Closed(values, rest) == Quoted(values[0]) + ("]" + rest);
    } else {
      var more := Closed(values[1..], rest);
      ItemsReadBack(values[1..], rest);
      ItemReadsBack(values[0], more, values[1..], rest);
      ClosedUnfolds(values, rest);
      assert [values[0]] + values[1..] == values;
    }
  }

  /** What is printed reads back as the same list, whatever follows it. */
  lemma PrintedArrayReadsBack(values: seq<string>, rest: string)
    ensures ParseArray(RenderStringArray(values) + rest) == Got(values, rest)
  {
    var s := RenderStringArray(values) + rest;
    assert Items(values) == seq(|values|, i requires 0 <= i < |values| => Quoted(values[i]));
    if values == [] {
      assert s == "[" + ("]" + rest);
      assert s[1..] == "]" + rest;
      assert ("]" + rest)[1..] == rest;
    } else {
      ItemsReadBack(values, rest);
      assert s[1..] == Closed(values, rest);
    }
  }

  /** No two lists print alike. */
  lemma RenderIsInjective(a: seq<string>, b: seq<string>)
    requires RenderStringArray(a) == RenderStringArray(b)
    ensures a == b
  {
    PrintedArrayReadsBack(a, "");
    PrintedArrayReadsBack(b, "");
  }

  /** No control character, so no line break, is printed raw. */
  lemma {:induction false} EscapedHasNoControl(value: string)
    ensures forall c :: c in Escape(value) ==> !IsControl(c)
  {
    if value != [] {
      EscapedHasNoControl(value[1..]);
    }
  }

  /** Exactly the quote, the backslash and the control characters are escaped. */
  lemma EscapedAreExactly(c: char)
    ensures EscapeChar(c) == [c] <==>
      c != '"' && c != '\\' && 0x1F < c as int && !(0x7F <= c as int <= 0x9F)
  {
  }

  /** Items are parted by a comma and a space. */
  lemma TwoItemsPrinted(a: string, b: string)
    ensures RenderStringArray([a, b]) == "[" + (Quoted(a) + ", " + Quoted(b)) + "]"
  {
    TwoJoined(Quoted(a), Quoted(b), ", ");
    assert Items([a, b]) == [Quoted(a), Quoted(b)];
  }

  lemma TwoJoined(a: string, b: string, separator: string)
    ensures Join([a, b], separator) == a + separator + b
  {
    assert [a, b][1..] == [b];
  }
}
