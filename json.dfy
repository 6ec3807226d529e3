/**
 * JSON values as JavaScript and SQLite's json_object see them, and
 * JSON.stringify's text form. Number formatting (Number.prototype.toString)
 * is a parameter: the model does not fix how a double is printed.
 */
module Json {
  import opened Options
  import Seqs

  datatype Json =
    | JNull
    | JBool(b: bool)
    | JNum(n: real)
    | JStr(s: string)
    | JArr(items: seq<Json>)
    | JObj(members: seq<(string, Json)>)

  /** The value under `key` in an object's members (JavaScript objects have unique keys; the first wins here). */
  function Get(members: seq<(string, Json)>, key: string): (r: Option<Json>)
    ensures r.Some? <==> exists k :: 0 <= k < |members| && members[k].0 == key
    ensures r.Some? ==> (key, r.value) in members
  {
    if |members| == 0 then None
    else if members[0].0 == key then Some(members[0].1)
    else Get(members[1..], key)
  }

  function Keys(members: seq<(string, Json)>): seq<string>
  {
    seq(|members|, k requires 0 <= k < |members| => members[k].0)
  }

  // ------------------------------------------------------------ string escapes

  const HexDigitsLower := "0123456789abcdef"

  /** JSON.stringify's escape for one character of a string literal. */
  function EscapeChar(c: char): string
  {
    if c == '"' then "\\\""
    else if c == '\\' then "\\\\"
    else if c == '\U{8}' then "\\b"
    else if c == '\U{C}' then "\\f"
    else if c == '\n' then "\\n"
    else if c == '\r' then "\\r"
    else if c == '\t' then "\\t"
    else if (c as int) < 0x20 then
      "\\u00" + [HexDigitsLower[(c as int) / 16], HexDigitsLower[(c as int) % 16]]
    else [c]
  }

  function Escape(s: string): string
  {
    if |s| == 0 then "" else EscapeChar(s[0]) + Escape(s[1..])
  }

  /** No quote, backslash or control character. */
  predicate Plain(s: string)
  {
    forall k :: 0 <= k < |s| ==> s[k] != '"' && s[k] != '\\' && (s[k] as int) >= 0x20
  }

  /** Plain text is written unchanged. */
  lemma {:induction false} EscapePlain(s: string)
    requires Plain(s)
    ensures Escape(s) == s
  {
    if |s| > 0 {
      EscapePlain(s[1..]);
    }
  }

  lemma QuotePlain(s: string)
    requires Plain(s)
    ensures Quote(s) == "\"" + s + "\""
  {
    EscapePlain(s);
  }

  /** A JSON string literal. */
  function Quote(s: string): string
  {
    "\"" + Escape(s) + "\""
  }

  function HexValue(c: char): Option<nat>
  {
    if '0' <= c <= '9' then Some(c as int - '0' as int)
    else if 'a' <= c <= 'f' then Some(c as int - 'a' as int + 10)
    else if 'A' <= c <= 'F' then Some(c as int - 'A' as int + 10)
    else None
  }

  /** The character a two-character escape `\e` stands for. */
  function SimpleEscape(e: char): Option<char>
  {
    if e == '"' then Some('"')
    else if e == '\\' then Some('\\')
    else if e == '/' then Some('/')
    else if e == 'b' then Some('\U{8}')
    else if e == 'f' then Some('\U{C}')
    else if e == 'n' then Some('\n')
    else if e == 'r' then Some('\r')
    else if e == 't' then Some('\t')
    else None
  }

  /** `t` starts with an escape `\u00XY`. */
  predicate StartsWithLowUnicodeEscape(t: string)
  {
    |t| >= 6 && t[0] == '\\' && t[1] == 'u' && t[2] == '0' && t[3] == '0'
    && HexValue(t[4]).Some? && HexValue(t[5]).Some?
  }

  function Prepend(c: char, rest: Option<string>): Option<string>
  {
    match rest
    case None => None
    case Some(r) => Some([c] + r)
  }

  /** Decodes the escapes of a JSON string body (the inverse of Escape); None on a malformed escape. */
  function Unescape(t: string): Option<string>
    decreases |t|
  {
    if |t| == 0 then Some("")
    else if t[0] != '\\' then Prepend(t[0], Unescape(t[1..]))
    else if |t| >= 2 && SimpleEscape(t[1]).Some? then Prepend(SimpleEscape(t[1]).value, Unescape(t[2..]))
    else if StartsWithLowUnicodeEscape(t) then
      Prepend((HexValue(t[4]).value * 16 + HexValue(t[5]).value) as char, Unescape(t[6..]))
    else None
  }

  lemma UnescapeControl(c: char, t: string)
    requires (c as int) < 0x20 && c != '\U{8}' && c != '\U{C}' && c != '\n' && c != '\r' && c != '\t'
    ensures Unescape(EscapeChar(c) + t) == Prepend(c, Unescape(t))
  {
    var hi, lo := (c as int) / 16, (c as int) % 16;
    var x := EscapeChar(c) + t;
    assert EscapeChar(c) == "\\u00" + [HexDigitsLower[hi], HexDigitsLower[lo]];
    assert x[0] == '\\' && x[1] == 'u' && x[2] == '0' && x[3] == '0';
    assert x[4] == HexDigitsLower[hi] && x[5] == HexDigitsLower[lo];
    assert HexValue(x[4]) == Some(hi);
    assert HexValue(x[5]) == Some(lo);
    assert SimpleEscape(x[1]).None?;
    assert StartsWithLowUnicodeEscape(x);
    assert x[6..] == t;
    assert (hi * 16 + lo) as char == c;
  }

  lemma UnescapeTwo(c: char, e: char, t: string)
    requires EscapeChar(c) == ['\\', e] && SimpleEscape(e) == Some(c)
    ensures Unescape(EscapeChar(c) + t) == Prepend(c, Unescape(t))
  {
    var x := EscapeChar(c) + t;
    assert x[0] == '\\' && x[1] == e;
    assert x[2..] == t;
  }

  lemma UnescapeEscapeChar(c: char, t: string)
    ensures Unescape(EscapeChar(c) + t) == Prepend(c, Unescape(t))
  {
    if c == '"' { UnescapeTwo(c, '"', t); }
    else if c == '\\' { UnescapeTwo(c, '\\', t); }
    else if c == '\U{8}' { UnescapeTwo(c, 'b', t); }
    else if c == '\U{C}' { UnescapeTwo(c, 'f', t); }
    else if c == '\n' { UnescapeTwo(c, 'n', t); }
    else if c == '\r' { UnescapeTwo(c, 'r', t); }
    else if c == '\t' { UnescapeTwo(c, 't', t); }
    else if (c as int) < 0x20 {
      UnescapeControl(c, t);
    } else {
      var x := EscapeChar(c) + t;
      assert x[0] == c && x[1..] == t;
    }
  }

  /** Decoding an escaped string gives the original string back. */
  lemma {:induction false} UnescapeEscape(s: string)
    ensures Unescape(Escape(s)) == Some(s)
  {
    if |s| > 0 {
      UnescapeEscape(s[1..]);
      UnescapeEscapeChar(s[0], Escape(s[1..]));
      assert [s[0]] + s[1..] == s;
    }
  }

  // -------------------------------------------------------------- stringify

  /** JSON.stringify(j) without indentation: no white space between tokens. */
  function Stringify(j: Json, numberText: real -> string): string
    decreases j
  {
    match j
    case JNull => "null"
    case JBool(b) => if b then "true" else "false"
    case JNum(n) => numberText(n)
    case JStr(s) => Quote(s)
    case JArr(items) =>
      "[" + Seqs.Join(seq(|items|, k requires 0 <= k < |items| => Stringify(items[k], numberText)), ",") + "]"
    case JObj(members) =>
      "{" + Seqs.Join(seq(|members|, k requires 0 <= k < |members| =>
                            Quote(members[k].0) + ":" + Stringify(members[k].1, numberText)), ",") + "}"
  }
}
