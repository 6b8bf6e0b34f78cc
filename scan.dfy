/**
 * The scanner of GeoffReader as functions of the input text and a cursor.
 * A reader in state (src, i) has consumed src[..i]; its one-character
 * lookahead is src[i], if there is one.
 */
module Scan {
  import opened Wrappers
  import opened Chars
  import opened Values

  /** peek(): the next character without consuming it, None at the end of input. */
  function Peek(src: seq<char>, i: nat): (r: Option<char>)
    requires i <= |src|
    ensures r.None? <==> i == |src|
    ensures r.Some? ==> r.value == src[i]
  {
    if i < |src| then Some(src[i]) else None
  }

  /** nextCharEquals(c). */
  predicate NextIs(src: seq<char>, i: nat, c: char)
    requires i <= |src|
  {
    i < |src| && src[i] == c
  }

  /** read(): the next character, consumed; fails at the end of input. */
  function Read(src: seq<char>, i: nat): (r: Result<(char, nat), ParseError>)
    requires i <= |src|
    ensures r.Err? <==> i == |src|
    ensures r.Err? ==> r.error == UnexpectedEndOfData
    ensures r.Ok? ==> r.value == (src[i], i + 1)
  {
    if i < |src| then Ok((src[i], i + 1)) else Err(UnexpectedEndOfData)
  }

  /** readChar(c): consumes c, or fails when the next character is not c. */
  function ReadChar(src: seq<char>, i: nat, c: char): (r: Result<nat, ParseError>)
    requires i <= |src|
    ensures r.Ok? <==> NextIs(src, i, c)
    ensures r.Ok? ==> r.value == i + 1
    ensures r.Err? ==> r.error == UnexpectedCharacter
  {
    if NextIs(src, i, c) then Ok(i + 1) else Err(UnexpectedCharacter)
  }

  /** Where readUntil(c) stops: just after the first c at or after i, or at the end of
      input when there is none (see UntilEndStops). The loop starts from ch == '\0',
      so a NUL terminator reads nothing. */
  function UntilEnd(src: seq<char>, i: nat, c: char): (j: nat)
    requires i <= |src|
    ensures i <= j <= |src|
    ensures c == '\0' ==> j == i
    ensures c != '\0' && j < |src| ==> i < j && src[j - 1] == c
    ensures c != '\0' && i < |src| ==> i < j
  {
    if c == '\0' then i else ScanTo(src, i, c)
  }

  function ScanTo(src: seq<char>, i: nat, c: char): (j: nat)
    requires i <= |src|
    ensures i <= j <= |src|
    ensures j < |src| ==> i < j && src[j - 1] == c
    ensures i < |src| ==> i < j
    decreases |src| - i
  {
    if i == |src| then i
    else if src[i] == c then i + 1
    else ScanTo(src, i + 1, c)
  }

  /** readUntil(c), for c other than NUL, reads exactly up to and including the first
      c when there is one, and otherwise everything that is left. */
  lemma {:induction false} UntilEndStops(src: seq<char>, i: nat, c: char)
    requires i <= |src| && c != '\0'
    ensures var j := UntilEnd(src, i, c);
      if c in src[i..] then i < j && src[j - 1] == c && c !in src[i..j - 1]
      else j == |src|
    decreases |src| - i
  {
    if i < |src| && src[i] != c {
      UntilEndStops(src, i + 1, c);
      assert src[i..] == [src[i]] + src[i + 1..];
      var j := UntilEnd(src, i, c);
      if c in src[i + 1..] {
        assert src[i..j - 1] == [src[i]] + src[i + 1..j - 1];
      }
    } else if i < |src| {
      assert src[i..i] == [];
    }
  }

  /** Where readUntil(t), for a non-empty t, stops when started at `start` and
      currently at j: it repeats readUntil(last character of t) until the text read
      since `start` ends with t, or the input is exhausted. */
  function UntilStrEnd(src: seq<char>, start: nat, j: nat, t: seq<char>): (k: nat)
    requires start <= j <= |src|
    requires |t| > 0 && t[|t| - 1] != '\0'
    ensures j <= k <= |src|
    ensures k == |src| || EndsWith(src[start..k], t)
    decreases |src| - j
  {
    if j == |src| || EndsWith(src[start..j], t) then j
    else UntilStrEnd(src, start, UntilEnd(src, j, t[|t| - 1]), t)
  }

  /** One round of readUntil(t): when the text read does not end with t yet and
      input is left, readUntil(t) goes on from where readUntil(last character of t)
      stops. */
  lemma UntilStrEndStep(src: seq<char>, start: nat, j: nat, t: seq<char>)
    requires start <= j < |src|
    requires |t| > 0 && t[|t| - 1] != '\0'
    requires !EndsWith(src[start..j], t)
    ensures UntilStrEnd(src, start, j, t) == UntilStrEnd(src, start, UntilEnd(src, j, t[|t| - 1]), t)
  {
  }

  /** readUntil(t) stops once the text read ends with t or nothing is left. */
  lemma UntilStrEndStop(src: seq<char>, start: nat, j: nat, t: seq<char>)
    requires start <= j <= |src|
    requires |t| > 0 && t[|t| - 1] != '\0'
    requires j == |src| || EndsWith(src[start..j], t)
    ensures UntilStrEnd(src, start, j, t) == j
  {
  }

  /** readWhitespace(): skips every whitespace character. */
  function WsEnd(src: seq<char>, i: nat): (j: nat)
    requires i <= |src|
    ensures i <= j <= |src|
    ensures forall k :: i <= k < j ==> IsWhitespace(src[k])
    ensures j < |src| ==> !IsWhitespace(src[j])
    decreases |src| - i
  {
    if i < |src| && IsWhitespace(src[i]) then WsEnd(src, i + 1) else i
  }

  /** The bare-name loop of readName: letters, digits and underscores. */
  function NameEnd(src: seq<char>, i: nat): (j: nat)
    requires i <= |src|
    ensures i <= j <= |src|
    ensures forall k :: i <= k < j ==> IsNameChar(src[k])
    ensures j < |src| ==> !IsNameChar(src[j])
    decreases |src| - i
  {
    if i < |src| && IsNameChar(src[i]) then NameEnd(src, i + 1) else i
  }

  /** A digit loop of readNumber, `while (Character.isDigit(this.peek()))`: peek() is
      null at the end of input, so unboxing it throws. */
  function DigitsEnd(src: seq<char>, i: nat): (r: Result<nat, ParseError>)
    requires i <= |src|
    ensures r.Ok? ==> i <= r.value < |src| && !IsDigit(src[r.value])
    ensures r.Err? ==> r.error == NullCharacter
    decreases |src| - i
  {
    if i == |src| then Err(NullCharacter)
    else if IsDigit(src[i]) then DigitsEnd(src, i + 1)
    else Ok(i)
  }

  /** The digit loop consumes only digits, and fails only when digits run to the end
      of input. */
  lemma {:induction false} DigitsEndDigits(src: seq<char>, i: nat)
    requires i <= |src|
    ensures var r := DigitsEnd(src, i);
      (r.Ok? ==> forall k :: i <= k < r.value ==> IsDigit(src[k])) &&
      (r.Err? ==> forall k :: i <= k < |src| ==> IsDigit(src[k]))
    decreases |src| - i
  {
    if i < |src| && IsDigit(src[i]) {
      DigitsEndDigits(src, i + 1);
    }
  }
}
