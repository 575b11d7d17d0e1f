/** The JSON text `JSON.stringify(value, null, 2)` produces, for the kinds of
    value a JSON-LD block is built from: strings, arrays and objects. */
module Json {
  import opened Wrappers

  datatype Json =
    | JString(s: string)
    | JArray(items: seq<Json>)
    | JObject(members: seq<Member>)

  datatype Member = Member(key: string, value: Json)

  const Backspace: char := 8 as char
  const FormFeed: char := 12 as char

  function HexDigit(n: nat): (c: char)
    requires n < 16
  {
    "0123456789abcdef"[n]
  }

  function HexValue(c: char): (r: Option<nat>)
    ensures r.Some? ==> r.value < 16
  {
    if '0' <= c <= '9' then Some(c as nat - '0' as nat)
    else if 'a' <= c <= 'f' then Some(c as nat - 'a' as nat + 10)
    else if 'A' <= c <= 'F' then Some(c as nat - 'A' as nat + 10)
    else None
  }

  lemma HexRoundTrip(n: nat)
    requires n < 16
    ensures HexValue(HexDigit(n)) == Some(n)
  {
  }

  /** How one character is written inside a JSON string literal: the quote
      and the backslash are escaped, the five control characters with a
      short escape get it, the other control characters become `\u00xx` in
      lower-case hexadecimal, and everything else is kept. */
  function EscapeChar(c: char): (r: string)
    ensures r != []
    ensures r[0] == '\\' || r == [c]
    ensures c != '"' && c != '\\' && c >= ' ' ==> r == [c]
  {
    if c == '"' then "\\\""
    else if c == '\\' then "\\\\"
    else if c == Backspace then "\\b"
    else if c == FormFeed then "\\f"
    else if c == '\n' then "\\n"
    else if c == '\r' then "\\r"
    else if c == '\t' then "\\t"
    else if c < ' ' then "\\u00" + [HexDigit(c as nat / 16), HexDigit(c as nat % 16)]
    else [c]
  }

  function Escape(s: string): (r: string)
    ensures |r| >= |s|
  {
    if s == [] then [] else EscapeChar(s[0]) + Escape(s[1..])
  }

  /** The escape a backslash introduces, given the characters after it. */
  function UnescapeOne(s: string): Option<(char, nat)> {
    if s == [] then None
    else if s[0] == '"' then Some(('"', 1))
    else if s[0] == '\\' then Some(('\\', 1))
    else if s[0] == '/' then Some(('/', 1))
    else if s[0] == 'b' then Some((Backspace, 1))
    else if s[0] == 'f' then Some((FormFeed, 1))
    else if s[0] == 'n' then Some(('\n', 1))
    else if s[0] == 'r' then Some(('\r', 1))
    else if s[0] == 't' then Some(('\t', 1))
    else if s[0] == 'u' && |s| >= 5 then
      var h0, h1, h2, h3 := HexValue(s[1]), HexValue(s[2]), HexValue(s[3]), HexValue(s[4]);
      if h0.None? || h1.None? || h2.None? || h3.None? then None
      else
        var n := ((h0.value * 16 + h1.value) * 16 + h2.value) * 16 + h3.value;
        if 0xD800 <= n < 0xE000 then None else Some((n as char, 5))
    else None
  }

  /** Reading the body of a JSON string literal back: `None` for a raw
      quote, a raw control character or a malformed escape. Escapes of
      lone surrogates are refused, as a `char` cannot hold one. */
  function Unescape(s: string): (r: Option<string>)
    decreases |s|
  {
    if s == [] then Some([])
    else if s[0] == '\\' then
      match UnescapeOne(s[1..])
      case None => None
      case Some((c, n)) =>
        match Unescape(s[1 + n..])
        case None => None
        case Some(rest) => Some([c] + rest)
    else if s[0] == '"' || s[0] < ' ' then None
    else
      match Unescape(s[1..])
      case None => None
      case Some(rest) => Some([s[0]] + rest)
  }

  /** One escaped character in front of an escaped rest reads back as that
      character in front of what the rest reads back as. */
  lemma UnescapeChar(c: char, rest: string)
    ensures Unescape(EscapeChar(c) + rest) ==
      match Unescape(rest)
      case None => None
      case Some(t) => Some([c] + t)
  {
    if c < ' ' && c != Backspace && c != FormFeed && c != '\n' && c != '\r' && c != '\t' {
      UnescapeHex(c, rest);
    } else if EscapeChar(c) == [c] {
      assert (EscapeChar(c) + rest)[1..] == rest;
    } else {
      UnescapeShort(c, rest);
    }
  }

  /** A control character without a short escape reads back from its
      `\u00xx` form. */
  lemma UnescapeHex(c: char, rest: string)
    requires c < ' ' && c != Backspace && c != FormFeed && c != '\n' && c != '\r' && c != '\t'
    ensures var s := EscapeChar(c) + rest;
      |s| >= 6 && s[0] == '\\' && UnescapeOne(s[1..]) == Some((c, 5)) && s[6..] == rest
  {
    var hi, lo := c as nat / 16, c as nat % 16;
    var s := EscapeChar(c) + rest;
    assert s[..6] == ['\\', 'u', '0', '0', HexDigit(hi), HexDigit(lo)];
    assert s[6..] == rest;
    var t := s[1..];
    assert t[0] == 'u' && t[1] == '0' && t[2] == '0' && t[3] == HexDigit(hi) && t[4] == HexDigit(lo);
    HexRoundTrip(hi);
    HexRoundTrip(lo);
    HexRoundTrip(0);
  }

  /** A character with a two-character escape reads back from it. */
  lemma UnescapeShort(c: char, rest: string)
    requires !(c < ' ' && c != Backspace && c != FormFeed && c != '\n' && c != '\r' && c != '\t')
    requires EscapeChar(c) != [c]
    ensures var s := EscapeChar(c) + rest;
      |s| >= 2 && s[0] == '\\' && UnescapeOne(s[1..]) == Some((c, 1)) && s[2..] == rest
  {
    var s := EscapeChar(c) + rest;
    assert |EscapeChar(c)| == 2;
    assert s[2..] == rest;
  }

  /** Escaping is undone by reading the literal back: every string survives
      a trip through a JSON string literal. */
  lemma {:induction false} UnescapeEscape(s: string)
    ensures Unescape(Escape(s)) == Some(s)
  {
    if s != [] {
      UnescapeEscape(s[1..]);
      UnescapeChar(s[0], Escape(s[1..]));
      assert [s[0]] + s[1..] == s;
    }
  }

  /** Two strings with the same escaped form are the same string. */
  lemma EscapeInjective(a: string, b: string)
    requires Escape(a) == Escape(b)
    ensures a == b
  {
    UnescapeEscape(a);
    UnescapeEscape(b);
  }

  function Quote(s: string): (r: string)
    ensures |r| >= 2 && r[0] == '"' && r[|r| - 1] == '"'
  {
    "\"" + Escape(s) + "\""
  }

  function Indent(depth: nat): (r: string)
    ensures |r| == 2 * depth
    ensures forall k :: 0 <= k < |r| ==> r[k] == ' '
  {
    seq(2 * depth, _ => ' ')
  }

  /** `JSON.stringify(v, null, 2)` for a value nested `depth` levels deep:
      an empty array or object is written `[]` or `{}`; otherwise each
      element goes on its own line, indented two spaces deeper than the
      bracket, elements separated by commas and keys followed by `": "`. */
  function Stringify(v: Json, depth: nat): (r: string)
    ensures r != []
    ensures v.JString? ==> r == Quote(v.s)
    ensures v.JArray? ==> r[0] == '[' && r[|r| - 1] == ']'
    ensures v.JObject? ==> r[0] == '{' && r[|r| - 1] == '}'
    decreases v, 1
  {
    match v
    case JString(s) => Quote(s)
    case JArray(items) =>
      if items == [] then "[]"
      else "[\n" + Elements(items, depth + 1) + "\n" + Indent(depth) + "]"
    case JObject(members) =>
      if members == [] then "{}"
      else "{\n" + Members(members, depth + 1) + "\n" + Indent(depth) + "}"
  }

  function Elements(items: seq<Json>, depth: nat): string
    requires items != []
    decreases items, 0
  {
    Indent(depth) + Stringify(items[0], depth)
    + if |items| == 1 then "" else ",\n" + Elements(items[1..], depth)
  }

  function Members(members: seq<Member>, depth: nat): string
    requires members != []
    decreases members, 0
  {
    Indent(depth) + Quote(members[0].key) + ": " + Stringify(members[0].value, depth)
    + if |members| == 1 then "" else ",\n" + Members(members[1..], depth)
  }
}
