/**
 * Decoding of a captured JSON string literal, standing in for the Jackson
 * ObjectMapper call in GeoffReader.readString. The decoder is strict: the raw
 * span must be one quoted JSON string and nothing else.
 */
module JsonString {
  import opened Wrappers
  import opened Values

  predicate IsHex(c: char) {
    ('0' <= c <= '9') || ('a' <= c <= 'f') || ('A' <= c <= 'F')
  }

  function HexValue(c: char): (v: nat)
    requires IsHex(c)
    ensures v < 16
  {
    if '0' <= c <= '9' then (c - '0') as nat
    else if 'a' <= c <= 'f' then (c - 'a') as nat + 10
    else (c - 'A') as nat + 10
  }

  function HexDigit(v: nat): (c: char)
    requires v < 16
    ensures IsHex(c) && HexValue(c) == v
  {
    if v < 10 then '0' + v as char else 'a' + (v - 10) as char
  }

  /** The character a one-letter escape stands for. */
  function SimpleEscape(e: char): Option<char> {
    match e
    case '"' => Some('"')
    case '\\' => Some('\\')
    case '/' => Some('/')
    case 'b' => Some('\U{8}')
    case 'f' => Some('\U{C}')
    case 'n' => Some('\n')
    case 'r' => Some('\r')
    case 't' => Some('\t')
    case _ => None
  }

  /** Decodes the text between the quotes. A raw '"' or control character, or a
      malformed escape, fails. A \\u escape decodes to its code point; escapes in
      the surrogate range (which Jackson pairs up) fail here. */
  function DecodeBody(b: seq<char>): (r: Result<string, ParseError>)
    decreases |b|
  {
    if b == [] then Ok([])
    else if b[0] == '"' || b[0] < ' ' then Err(InvalidStringLiteral)
    else if b[0] != '\\' then
      var rest :- DecodeBody(b[1..]);
      Ok([b[0]] + rest)
    else if |b| < 2 then Err(InvalidStringLiteral)
    else if b[1] == 'u' then
      if |b| < 6 || !(IsHex(b[2]) && IsHex(b[3]) && IsHex(b[4]) && IsHex(b[5])) then Err(InvalidStringLiteral)
      else
        var v := ((HexValue(b[2]) * 16 + HexValue(b[3])) * 16 + HexValue(b[4])) * 16 + HexValue(b[5]);
        if 0xD800 <= v <= 0xDFFF then Err(InvalidStringLiteral)
        else
          var rest :- DecodeBody(b[6..]);
          Ok([v as char] + rest)
    else
      match SimpleEscape(b[1])
      case None => Err(InvalidStringLiteral)
      case Some(c) =>
        var rest :- DecodeBody(b[2..]);
        Ok([c] + rest)
  }

  /** The value of a captured span: a quoted JSON string. */
  function Decode(raw: seq<char>): Result<string, ParseError> {
    if |raw| >= 2 && raw[0] == '"' && raw[|raw| - 1] == '"' then DecodeBody(raw[1..|raw| - 1])
    else Err(InvalidStringLiteral)
  }

  /** The escaped form of one character, as a JSON writer produces it. */
  function EscapeChar(c: char): seq<char> {
    if c == '"' then ['\\', '"']
    else if c == '\\' then ['\\', '\\']
    else if c < ' ' then ['\\', 'u', '0', '0', HexDigit(c as nat / 16), HexDigit(c as nat % 16)]
    else [c]
  }

  function EscapeBody(s: string): seq<char> {
    if s == [] then [] else EscapeChar(s[0]) + EscapeBody(s[1..])
  }

  /** The JSON literal of a string. */
  function Encode(s: string): seq<char> {
    ['"'] + EscapeBody(s) + ['"']
  }

  /** A decoded prefix in front of the decoding of the rest. */
  function Prepend(p: string, r: Result<string, ParseError>): Result<string, ParseError> {
    if r.Ok? then Ok(p + r.value) else r
  }

  lemma DecodeEscapeChar(c: char, rest: seq<char>)
    ensures DecodeBody(EscapeChar(c) + rest) == Prepend([c], DecodeBody(rest))
  {
    var b := EscapeChar(c) + rest;
    if c == '"' || c == '\\' {
      assert b[2..] == rest;
      assert SimpleEscape(b[1]) == Some(c);
    } else if c < ' ' {
      var v := c as nat;
      assert b[0] == '\\' && b[1] == 'u' && b[2] == '0' && b[3] == '0';
      assert b[4] == HexDigit(v / 16) && b[5] == HexDigit(v % 16);
      assert HexValue(b[2]) == 0 && HexValue(b[3]) == 0;
      assert b[6..] == rest;
      assert v as char == c;
    } else {
      assert b[1..] == rest;
    }
  }

  lemma {:induction false} DecodeEscapeBody(s: string, t: seq<char>)
    ensures DecodeBody(EscapeBody(s) + t) == Prepend(s, DecodeBody(t))
    decreases |s|
  {
    hide DecodeBody, EscapeChar;
    if s == [] {
      assert EscapeBody(s) + t == t;
      if DecodeBody(t).Ok? { assert s + DecodeBody(t).value == DecodeBody(t).value; }
    } else {
      var tail := EscapeBody(s[1..]) + t;
      assert EscapeBody(s) + t == EscapeChar(s[0]) + tail;
      DecodeEscapeChar(s[0], tail);
      DecodeEscapeBody(s[1..], t);
      assert Prepend([s[0]], Prepend(s[1..], DecodeBody(t))) == Prepend(s, DecodeBody(t)) by {
        assert [s[0]] + s[1..] == s;
        if DecodeBody(t).Ok? {
          assert [s[0]] + (s[1..] + DecodeBody(t).value) == s + DecodeBody(t).value;
        }
      }
    }
  }

  /** Decoding inverts encoding. */
  lemma DecodeEncode(s: string)
    ensures Decode(Encode(s)) == Ok(s)
  {
    var raw := Encode(s);
    assert raw[1..|raw| - 1] == EscapeBody(s) + [];
    DecodeEscapeBody(s, []);
    assert s + [] == s;
    assert Prepend(s, DecodeBody([])) == Ok(s);
  }

  /** Decoding never lengthens: each character of the value takes at least one
      character of the text. */
  lemma {:induction false} DecodeBodyShorter(b: seq<char>)
    ensures DecodeBody(b).Ok? ==> |DecodeBody(b).value| <= |b|
    decreases |b|
  {
    if b != [] && b[0] != '"' && b[0] >= ' ' {
      if b[0] != '\\' {
        DecodeBodyShorter(b[1..]);
      } else if |b| >= 2 {
        if b[1] == 'u' {
          if |b| >= 6 {
            DecodeBodyShorter(b[6..]);
          }
        } else {
          DecodeBodyShorter(b[2..]);
        }
      }
    }
  }

  /** A decoded literal is shorter than its text by at least the two quotes. */
  lemma DecodeShorter(raw: seq<char>)
    ensures Decode(raw).Ok? ==> |Decode(raw).value| + 2 <= |raw|
  {
    if |raw| >= 2 && raw[0] == '"' && raw[|raw| - 1] == '"' {
      DecodeBodyShorter(raw[1..|raw| - 1]);
    }
  }
}
