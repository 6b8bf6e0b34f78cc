/**
 * Properties of the literal sub-grammar.
 */
module LiteralProperties {
  import opened Wrappers
  import opened Chars
  import opened Values
  import opened Scan
  import opened Literals

  /** src continues at i with the word w. */
  predicate StartsWith(src: seq<char>, i: nat, w: seq<char>)
    requires i <= |src|
  {
    i + |w| <= |src| && src[i..i + |w|] == w
  }

  /** readBoolean accepts exactly `true` and `false`, returns which one it read and
      consumes exactly that word. Not starting with t or f is "Cannot establish
      truth"; a word that starts right and goes wrong is an unexpected character. */
  lemma BooleanExact(src: seq<char>, i: nat)
    requires i <= |src|
    ensures ReadBoolean(src, i).Ok? <==> StartsWith(src, i, "true") || StartsWith(src, i, "false")
    ensures StartsWith(src, i, "true") ==> ReadBoolean(src, i) == Ok((true, i + 4))
    ensures StartsWith(src, i, "false") ==> ReadBoolean(src, i) == Ok((false, i + 5))
    ensures !NextIs(src, i, 't') && !NextIs(src, i, 'f') ==> ReadBoolean(src, i) == Err(CannotEstablishTruth)
    ensures (NextIs(src, i, 't') || NextIs(src, i, 'f')) && ReadBoolean(src, i).Err? ==>
              ReadBoolean(src, i).error == UnexpectedCharacter
  {
    if StartsWith(src, i, "true") {
      assert src[i] == 't' && src[i + 1] == 'r' && src[i + 2] == 'u' && src[i + 3] == 'e';
    }
    if StartsWith(src, i, "false") {
      assert src[i] == 'f' && src[i + 1] == 'a' && src[i + 2] == 'l' && src[i + 3] == 's' && src[i + 4] == 'e';
    }
    if ReadBoolean(src, i).Ok? {
      if NextIs(src, i, 't') {
        assert src[i..i + 4] == "true";
      } else {
        assert src[i..i + 5] == "false";
      }
    }
  }

  /** readNumber classifies a literal as a Double exactly when it has a '.' or an
      exponent marker, and as an Integer otherwise. */
  lemma NumberClassification(src: seq<char>, i: nat)
    requires i <= |src|
    ensures var r := ReadNumber(src, i);
      r.Ok? ==> (r.value.0.RealNum? <==> ('.' in src[i..r.value.1] || 'e' in src[i..r.value.1] || 'E' in src[i..r.value.1]))
  {
    var r := ReadNumber(src, i);
    if r.Ok? {
      var j := r.value.1;
      var m := ScanMantissa(src, i).value;
      var x := ScanExponent(src, i, m.c).value;
      assert j == i + x.e;
      if m.hasDot {
        assert src[i..j][m.b] == '.';
      } else if x.hasExp {
        assert src[i..j][m.c] == src[i + m.c];
      } else {
        DigitsEndDigits(src, i + m.a);
        forall k | i <= k < j ensures src[k] != '.' && src[k] != 'e' && src[k] != 'E' {
          if k >= i + m.a { assert IsDigit(src[k]); }
        }
        assert forall k :: 0 <= k < |src[i..j]| ==> src[i..j][k] == src[i + k];
      }
    }
  }

  /** `[` followed by whitespace and `]` reads as the empty list. */
  lemma EmptyArray(src: seq<char>, i: nat)
    requires i < |src| && src[i] == '['
    requires NextIs(src, WsEnd(src, i + 1), ']')
    ensures ReadArray(src, i).Ok?
    ensures ReadArray(src, i).value == (EmptyList, WsEnd(src, i + 1) + 1)
  {
    var b := WsEnd(src, i + 1);
    assert ReadChar(src, i, '[') == Ok(i + 1);
    assert ArrayBody(src, b) == Ok((EmptyList, b + 1));
  }

  /** ... which readValue turns into null. */
  lemma EmptyArrayIsNull(src: seq<char>, i: nat)
    requires i < |src| && src[i] == '['
    requires NextIs(src, WsEnd(src, i + 1), ']')
    ensures ReadValue(src, i) == Ok((Null, WsEnd(src, i + 1) + 1))
  {
    EmptyArray(src, i);
  }

  /** The literal `null` is the null value. */
  lemma NullLiteral(src: seq<char>, i: nat)
    requires i <= |src| && StartsWith(src, i, "null")
    ensures ReadValue(src, i) == Ok((Null, i + 4))
  {
    assert src[i] == 'n' && src[i + 1] == 'u' && src[i + 2] == 'l' && src[i + 3] == 'l';
  }

  /** The characters a value may start with. */
  predicate StartsValue(c: char) {
    c == '[' || c == '"' || c == '-' || IsDigit(c) || c == 't' || c == 'f' || c == 'n'
  }

  /** readValue dispatches on the first character: each starting character hands the
      rest to its own reader, any other character is an unexpected character, and the
      end of input fails on the unboxing of a null lookahead. */
  lemma ValueDispatch(src: seq<char>, i: nat)
    requires i <= |src|
    ensures i == |src| ==> ReadValue(src, i) == Err(NullCharacter)
    ensures i < |src| && !StartsValue(src[i]) ==> ReadValue(src, i) == Err(UnexpectedCharacter)
    ensures i < |src| && src[i] == '"' ==>
      ReadValue(src, i) == (var p := ReadString(src, i); if p.Ok? then Ok((Str(p.value.0), p.value.1)) else Err(p.error))
    ensures i < |src| && (src[i] == '-' || IsDigit(src[i])) ==>
      ReadValue(src, i) == (var p := ReadNumber(src, i); if p.Ok? then Ok((Num(p.value.0), p.value.1)) else Err(p.error))
    ensures i < |src| && (src[i] == 't' || src[i] == 'f') ==>
      ReadValue(src, i) == (var p := ReadBoolean(src, i); if p.Ok? then Ok((Bool(p.value.0), p.value.1)) else Err(p.error))
    ensures i < |src| && src[i] == '[' ==>
      ReadValue(src, i) == (var p := ReadArray(src, i); if p.Ok? then Ok((ListValue(p.value.0), p.value.1)) else Err(p.error))
    ensures ReadValue(src, i).Ok? ==> i < |src| && StartsValue(src[i])
  {
  }

  /** readArray after '[' and whitespace: at the end of input isDigit(peek())
      throws; a first character that starts no string, number or boolean and does
      not close the array is "Disarray". */
  lemma ArrayDispatch(src: seq<char>, i: nat)
    requires i < |src| && src[i] == '['
    ensures var b := WsEnd(src, i + 1);
      (b == |src| ==> ReadArray(src, i) == Err(NullCharacter)) &&
      (b < |src| && src[b] !in "\"-]tf" && !IsDigit(src[b]) ==> ReadArray(src, i) == Err(Disarray))
  {
    var b := WsEnd(src, i + 1);
    assert ReadArray(src, i) == ArrayBody(src, b);
  }
}
