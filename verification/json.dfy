/** `JSON.stringify` for the values the server streams, and the reading of a
    JSON string literal as `JSON.parse` performs it. */
module Json {
  import opened Text
  import JsNumbers

  datatype Json =
    | JNull
    | JBool(b: bool)
    | JNum(n: int)
    | JStr(s: string)
    | JArr(items: seq<Json>)
    | JObj(fields: seq<(string, Json)>)

  /** No control character (below U+0020), so in particular no line break. */
  predicate NoControl(s: string) {
    forall k :: 0 <= k < |s| ==> s[k] >= ' '
  }

  /** A lower-case hexadecimal digit. */
  function HexChar(d: nat): (c: char)
    requires d < 16
    ensures c >= ' '
  {
    if d < 10 then ('0' as int + d) as char else ('a' as int + d - 10) as char
  }

  /** The two-character escapes `JSON.stringify` uses, by the letter after the backslash. */
  function ShortEscape(c: char): Option<char> {
    if c == '"' then Some('"')
    else if c == '\\' then Some('\\')
    else if c == '\U{0008}' then Some('b')
    else if c == '\U{000C}' then Some('f')
    else if c == '\n' then Some('n')
    else if c == '\r' then Some('r')
    else if c == '\t' then Some('t')
    else None
  }

  /** How `JSON.stringify` writes one character inside a string. */
  function EscapeChar(c: char): (r: string)
    ensures |r| >= 1 && NoControl(r)
  {
    match ShortEscape(c)
    case Some(x) => ['\\', x]
    case None =>
      if c < ' ' then ['\\', 'u', '0', '0', HexChar(c as int / 16), HexChar(c as int % 16)]
      else [c]
  }

  function EscapeString(s: string): (r: string)
    ensures NoControl(r)
  {
    if s == [] then ""
    else
      NoControlAppend(EscapeChar(s[0]), EscapeString(s[1..]));
      EscapeChar(s[0]) + EscapeString(s[1..])
  }

  /** A string value in double quotes. */
  function Quote(s: string): (r: string)
    ensures NoControl(r) && |r| >= 2 && r[0] == '"' && r[|r| - 1] == '"'
  {
    var e := EscapeString(s);
    NoControlAppend("\"", e);
    NoControlAppend("\"" + e, "\"");
    "\"" + e + "\""
  }

  lemma NoControlAppend(a: string, b: string)
    requires NoControl(a) && NoControl(b)
    ensures NoControl(a + b)
  {
    assert forall k :: 0 <= k < |a + b| ==> (a + b)[k] == if k < |a| then a[k] else b[k - |a|];
  }

  lemma {:induction false} JoinNoControl(xs: seq<string>, sep: string)
    requires NoControl(sep)
    requires forall k :: 0 <= k < |xs| ==> NoControl(xs[k])
    ensures NoControl(Join(xs, sep))
    decreases |xs|
  {
    if |xs| > 1 {
      JoinNoControl(xs[1..], sep);
      NoControlAppend(xs[0], sep);
      NoControlAppend(xs[0] + sep, Join(xs[1..], sep));
    }
  }

  function IntText(n: int): (r: string)
    ensures NoControl(r)
  {
    var d := JsNumbers.NatToString(if n < 0 then -n else n);
    var r := if n < 0 then "-" + d else d;
    assert forall k :: 0 <= k < |d| ==> IsDigit(d[k]);
    assert forall k :: 0 <= k < |r| ==> r[k] == '-' || IsDigit(r[k]);
    r
  }

  /** `JSON.stringify(v)`: no white space between tokens. */
  function Stringify(v: Json): (r: string)
    decreases v, 1
    ensures NoControl(r)
  {
    match v
    case JNull => "null"
    case JBool(b) => if b then "true" else "false"
    case JNum(n) => IntText(n)
    case JStr(s) => Quote(s)
    case JArr(items) =>
      var parts := seq(|items|, i requires 0 <= i < |items| => Stringify(items[i]));
      JoinNoControl(parts, ",");
      NoControlAppend("[", Join(parts, ","));
      NoControlAppend("[" + Join(parts, ","), "]");
      "[" + Join(parts, ",") + "]"
    case JObj(fields) =>
      var parts := seq(|fields|, i requires 0 <= i < |fields| => Member(fields[i].0, fields[i].1));
      JoinNoControl(parts, ",");
      NoControlAppend("{", Join(parts, ","));
      NoControlAppend("{" + Join(parts, ","), "}");
      "{" + Join(parts, ",") + "}"
  }

  /** One `"key":value` member of an object. */
  function Member(key: string, value: Json): (r: string)
    decreases value, 2
    ensures NoControl(r)
  {
    NoControlAppend(Quote(key), ":");
    NoControlAppend(Quote(key) + ":", Stringify(value));
    Quote(key) + ":" + Stringify(value)
  }

  /** A serialised value never holds a line break, so it cannot hold the blank
      line that ends an event frame. */
  lemma StringifyOneLine(v: Json)
    ensures '\n' !in Stringify(v)
  {
    var r := Stringify(v);
    forall k | 0 <= k < |r| ensures r[k] != '\n' {
    }
  }

  /* ---------- reading a string literal back ---------- */

  function HexValue(c: char): (r: Option<nat>)
    ensures r.Some? ==> r.value < 16
  {
    if '0' <= c <= '9' then Some(c as int - '0' as int)
    else if 'a' <= c <= 'f' then Some(c as int - 'a' as int + 10)
    else if 'A' <= c <= 'F' then Some(c as int - 'A' as int + 10)
    else None
  }

  /** The character a `\uXXXX` escape stands for, for code points outside the
      surrogate range. */
  function UnicodeEscape(a: char, b: char, c: char, d: char): Option<char> {
    if HexValue(a).None? || HexValue(b).None? || HexValue(c).None? || HexValue(d).None? then None
    else
      var n := ((HexValue(a).value * 16 + HexValue(b).value) * 16 + HexValue(c).value) * 16 + HexValue(d).value;
      if n < 0xD800 || 0xE000 <= n then Some(n as char) else None
  }

  function SimpleEscape(c: char): Option<char> {
    if c == '"' || c == '\\' || c == '/' then Some(c)
    else if c == 'b' then Some('\U{0008}')
    else if c == 'f' then Some('\U{000C}')
    else if c == 'n' then Some('\n')
    else if c == 'r' then Some('\r')
    else if c == 't' then Some('\t')
    else None
  }

  function Prepend(c: char, r: Option<(string, string)>): Option<(string, string)> {
    match r
    case None => None
    case Some(p) => Some(([c] + p.0, p.1))
  }

  /** `JSON.parse` reading the body of a string from the start of `s`: the
      value and the unread text, which starts with the closing quote; `None`
      for a syntax error. Escaped surrogate pairs are not read. */
  function ReadString(s: string): (r: Option<(string, string)>)
    decreases |s|
    ensures r.Some? ==> |r.value.1| <= |s| && r.value.1 != [] && r.value.1[0] == '"'
  {
    if s == [] then None
    else if s[0] == '"' then Some(("", s))
    else if s[0] < ' ' then None
    else if s[0] != '\\' then Prepend(s[0], ReadString(s[1..]))
    else if |s| < 2 then None
    else if s[1] == 'u' then
      if |s| < 6 then None
      else match UnicodeEscape(s[2], s[3], s[4], s[5])
        case None => None
        case Some(c) => Prepend(c, ReadString(s[6..]))
    else match SimpleEscape(s[1])
      case None => None
      case Some(c) => Prepend(c, ReadString(s[2..]))
  }

  /** The letter of a short escape reads back as the character it stands for. */
  lemma ShortEscapeInverse(c: char)
    requires ShortEscape(c).Some?
    ensures ShortEscape(c).value != 'u' && SimpleEscape(ShortEscape(c).value) == Some(c)
  {
  }

  /** The two hexadecimal digits written for a control character read back as it. */
  lemma ControlEscapeInverse(c: char)
    requires c < ' '
    ensures UnicodeEscape('0', '0', HexChar(c as int / 16), HexChar(c as int % 16)) == Some(c)
  {
    var n := c as int;
    assert HexValue(HexChar(n / 16)) == Some(n / 16);
    assert HexValue(HexChar(n % 16)) == Some(n % 16);
  }

  /** One escaped character is read back in front of what follows it. */
  lemma ReadEscapedChar(c: char, x: string)
    ensures ReadString(EscapeChar(c) + x) == Prepend(c, ReadString(x))
  {
    var e := EscapeChar(c);
    var s := e + x;
    assert s[|e|..] == x;
    assert forall k :: 0 <= k < |e| ==> s[k] == e[k];
    match ShortEscape(c)
    case Some(_) =>
      ShortEscapeInverse(c);
    case None =>
      if c < ' ' {
        ControlEscapeInverse(c);
      }
  }

  /** The escaped body is the first character's escape followed by the rest's. */
  lemma EscapeStringCons(t: string, x: string)
    requires t != []
    ensures EscapeString(t) + x == EscapeChar(t[0]) + (EscapeString(t[1..]) + x)
  {
  }

  /** An escaped body followed by a closing quote is read back whole by `JSON.parse`. */
  lemma {:induction false} ReadQuoted(t: string, x: string)
    requires x != [] && x[0] == '"'
    ensures ReadString(EscapeString(t) + x) == Some((t, x))
    decreases |t|
  {
    if t == [] {
      assert EscapeString(t) + x == x;
    } else {
      EscapeStringCons(t, x);
      ReadEscapedChar(t[0], EscapeString(t[1..]) + x);
      ReadQuoted(t[1..], x);
      assert [t[0]] + t[1..] == t;
    }
  }

  /** `JSON.parse(JSON.stringify(s)) == s` for a string `s`: the text after the
      opening quote reads back as `s`, and only the closing quote is left. */
  lemma QuoteRoundTrip(t: string)
    ensures Quote(t)[0] == '"' && ReadString(Quote(t)[1..]) == Some((t, "\""))
  {
    var e := EscapeString(t);
    assert Quote(t)[1..] == e + "\"";
    ReadQuoted(t, "\"");
  }
}
