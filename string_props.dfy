/**
 * Where readString stops. A JSON writer's output for any string, followed by
 * anything, is read back as that string and no further (ReadStringEncoded); the
 * span test of readString as written runs past a string whose text ends with a
 * backslash (SpanEndAsWrittenOverruns).
 */
module StringProperties {
  import opened Wrappers
  import opened Chars
  import opened Values
  import opened Scan
  import opened Literals
  import opened JsonString

  /** The run of backslashes just before j, not reaching back past i. */
  function Run(src: seq<char>, i: nat, j: nat): nat
    requires i <= j <= |src|
    decreases j - i
  {
    if i < j && src[j - 1] == '\\' then 1 + Run(src, i, j - 1) else 0
  }

  /** Run counts the backslashes that end the slice from i to j. */
  lemma {:induction false} RunIs(src: seq<char>, i: nat, j: nat)
    requires i <= j <= |src|
    ensures TrailingBackslashes(src[i..j]) == Run(src, i, j)
    decreases j - i
  {
    if i < j {
      assert src[i..j][..j - 1 - i] == src[i..j - 1];
      RunIs(src, i, j - 1);
    }
  }

  /** The slice from i to k ends in an escaped quote exactly when its last
      character is a quote with an odd run of backslashes before it. */
  lemma EscapedAt(src: seq<char>, i: nat, k: nat)
    requires i < k <= |src|
    ensures QuoteIsEscaped(src[i..k]) <==> src[k - 1] == '"' && Run(src, i, k - 1) % 2 == 1
  {
    assert src[i..k][..k - 1 - i] == src[i..k - 1];
    RunIs(src, i, k - 1);
  }

  /** With no quote from j up to j2, the next quote after j is the next one after j2. */
  lemma {:induction false} UntilSkip(src: seq<char>, j: nat, j2: nat)
    requires j <= j2 <= |src|
    requires forall p :: j <= p < j2 ==> src[p] != '"'
    ensures UntilEnd(src, j, '"') == UntilEnd(src, j2, '"')
    decreases j2 - j
  {
    if j < j2 {
      UntilSkip(src, j + 1, j2);
    }
  }

  /** A quote-free stretch does not change where the span ends. */
  lemma SpanSkip(src: seq<char>, i: nat, j: nat, j2: nat)
    requires i < j <= j2 < |src|
    requires forall p :: j <= p < j2 ==> src[p] != '"'
    ensures SpanEnd(src, i, j) == SpanEnd(src, i, j2)
  {
    UntilSkip(src, j, j2);
  }

  /** What a JSON writer writes for one character: an escaped quote, or a
      quote-free piece that ends in a backslash only when it is an escaped one. */
  lemma EscapeCharShape(c: char)
    ensures c == '"' ==> EscapeChar(c) == ['\\', '"']
    ensures c != '"' ==> var e := EscapeChar(c);
      |e| > 0 && '"' !in e && (e == ['\\', '\\'] || e[|e| - 1] != '\\')
  {
  }

  /** One round of the span loop of readString. */
  lemma SpanEndUnfold(src: seq<char>, i: nat, j: nat)
    requires i < j < |src|
    ensures var k := UntilEnd(src, j, '"');
      SpanEnd(src, i, j) == if QuoteIsEscaped(src[i..k]) then SpanEnd(src, i, k) else k
  {
  }

  /** readUntil('"') at a quote reads just that quote. */
  lemma UntilHere(src: seq<char>, j: nat)
    requires j < |src| && src[j] == '"'
    ensures UntilEnd(src, j, '"') == j + 1
  {
  }

  /** The closing quote after an even run of backslashes ends the span. */
  lemma SpanEndClose(src: seq<char>, i: nat, j: nat)
    requires i < j < |src| && src[j] == '"'
    requires Run(src, i, j) % 2 == 0
    ensures SpanEnd(src, i, j) == j + 1
  {
    hide SpanEnd, UntilEnd, QuoteIsEscaped, TrailingBackslashes, Run;
    SpanEndUnfold(src, i, j);
    UntilHere(src, j);
    EscapedAt(src, i, j + 1);
  }

  /** An escaped quote after an even run of backslashes does not end the span. */
  lemma SpanEndQuoteStep(src: seq<char>, i: nat, j: nat)
    requires i < j && j + 2 < |src| && src[j] == '\\' && src[j + 1] == '"'
    requires Run(src, i, j) % 2 == 0
    ensures SpanEnd(src, i, j) == SpanEnd(src, i, j + 2)
    ensures Run(src, i, j + 2) == 0
  {
    hide SpanEnd, UntilEnd, QuoteIsEscaped, TrailingBackslashes;
    SpanEndUnfold(src, i, j);
    UntilHere(src, j + 1);
    UntilSkip(src, j, j + 1);
    EscapedAt(src, i, j + 2);
    assert Run(src, i, j + 1) == Run(src, i, j) + 1;
  }

  /** A quote-free piece does not end the span, and leaves an even run of
      backslashes when it is an escaped backslash or ends in something else. */
  lemma SpanEndPlainStep(src: seq<char>, i: nat, j: nat, e: seq<char>)
    requires i < j && j + |e| < |src| && src[j..j + |e|] == e
    requires |e| > 0 && '"' !in e && (e == ['\\', '\\'] || e[|e| - 1] != '\\')
    requires Run(src, i, j) % 2 == 0
    ensures SpanEnd(src, i, j) == SpanEnd(src, i, j + |e|)
    ensures Run(src, i, j + |e|) % 2 == 0
  {
    hide SpanEnd, UntilEnd, QuoteIsEscaped, TrailingBackslashes;
    var j2 := j + |e|;
    forall p | j <= p < j2
      ensures src[p] != '"'
    {
      assert src[p] == e[p - j];
    }
    SpanSkip(src, i, j, j2);
    if e == ['\\', '\\'] {
      assert src[j] == '\\' && src[j + 1] == '\\';
      assert Run(src, i, j + 2) == Run(src, i, j + 1) + 1 == Run(src, i, j) + 2;
    } else {
      assert src[j2 - 1] == e[|e| - 1];
    }
  }

  /** The escaped form of one character, after an even run of backslashes, does
      not end the span and leaves an even run of backslashes. */
  lemma SpanEndPiece(src: seq<char>, i: nat, j: nat, c: char)
    requires i < j && j + |EscapeChar(c)| < |src| && src[j..j + |EscapeChar(c)|] == EscapeChar(c)
    requires Run(src, i, j) % 2 == 0
    ensures SpanEnd(src, i, j) == SpanEnd(src, i, j + |EscapeChar(c)|)
    ensures Run(src, i, j + |EscapeChar(c)|) % 2 == 0
  {
    hide SpanEnd, UntilEnd, QuoteIsEscaped, TrailingBackslashes, Run, EscapeChar;
    var e := EscapeChar(c);
    EscapeCharShape(c);
    if c == '"' {
      assert src[j] == e[0] && src[j + 1] == e[1];
      SpanEndQuoteStep(src, i, j);
    } else {
      SpanEndPlainStep(src, i, j, e);
    }
  }

  /** A slice that is x followed by y splits into x and y. */
  lemma SplitAt(src: seq<char>, j: nat, x: seq<char>, y: seq<char>)
    requires j + |x| + |y| <= |src| && src[j..j + |x| + |y|] == x + y
    ensures src[j..j + |x|] == x && src[j + |x|..j + |x| + |y|] == y
  {
    assert src[j..j + |x|] == src[j..j + |x| + |y|][..|x|];
    assert src[j + |x|..j + |x| + |y|] == src[j..j + |x| + |y|][|x|..];
  }

  /** From a point after an even run of backslashes, the span of an escaped body
      and its closing quote ends just after that quote. */
  lemma {:induction false} SpanEndEncoded(src: seq<char>, i: nat, j: nat, s: string)
    requires i < j && j + |EscapeBody(s)| < |src|
    requires src[j..j + |EscapeBody(s)| + 1] == EscapeBody(s) + ['"']
    requires Run(src, i, j) % 2 == 0
    ensures SpanEnd(src, i, j) == j + |EscapeBody(s)| + 1
    decreases |s|
  {
    hide SpanEnd, UntilEnd, QuoteIsEscaped, TrailingBackslashes, Run;
    var body := EscapeBody(s);
    if s == [] {
      assert src[j] == src[j..j + |body| + 1][0];
      SpanEndClose(src, i, j);
    } else {
      var e := EscapeChar(s[0]);
      var rest := EscapeBody(s[1..]);
      var j2 := j + |e|;
      assert body == e + rest;
      assert body + ['"'] == e + (rest + ['"']);
      SplitAt(src, j, e, rest + ['"']);
      hide EscapeChar, EscapeBody;
      SpanEndPiece(src, i, j, s[0]);
      SpanEndEncoded(src, i, j2, s[1..]);
    }
  }

  /** readString (with the corrected end test) reads back exactly what a JSON
      writer wrote for s, whatever follows it. */
  lemma ReadStringEncoded(s: string, rest: seq<char>)
    ensures ReadString(Encode(s) + rest, 0) == Ok((s, |Encode(s)|))
  {
    var src := Encode(s) + rest;
    var body := EscapeBody(s);
    assert src[0] == '"';
    assert src[1..1 + |body| + 1] == body + ['"'];
    assert Run(src, 0, 1) == 0;
    SpanEndEncoded(src, 0, 1, s);
    assert src[0..|Encode(s)|] == Encode(s);
    DecodeEncode(s);
  }

  /** The string whose text is one backslash, then a comma and a quote: the end
      test as written takes the written closing quote for an escaped one and runs
      on to the next quote; the corrected test stops at the closing quote. */
  lemma SpanEndAsWrittenOverruns()
    ensures var src := Encode(['\\']) + [',', '"'];
      src == ['"', '\\', '\\', '"', ',', '"'] &&
      SpanEndAsWritten(src, 0, 1) == 6 && SpanEnd(src, 0, 1) == 4 &&
      JsonString.Decode(src[0..4]) == Ok(['\\'])
  {
    var src := Encode(['\\']) + [',', '"'];
    assert EscapeBody(['\\']) == ['\\', '\\'];
    assert src == ['"', '\\', '\\', '"', ',', '"'];
    assert ScanTo(src, 3, '"') == 4 && ScanTo(src, 2, '"') == 4 && ScanTo(src, 1, '"') == 4;
    assert src[0..4] == ['"', '\\', '\\', '"'];
    assert EndsWith(src[0..4], EscapedQuote);
    assert ScanTo(src, 5, '"') == 6 && ScanTo(src, 4, '"') == 6;
    assert src[0..6][6 - 2..] == [',', '"'];
    assert SpanEndAsWritten(src, 0, 4) == 6;
    ReadStringEncoded(['\\'], [',', '"']);
  }
}
