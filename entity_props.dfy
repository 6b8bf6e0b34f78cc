/**
 * The relationship name in a relationship box. Its test in readRelationshipBox
 * is inverted: the name is skipped only where there is none, so a box that
 * names its relationship is rejected (RelBoxNameAsWritten). With the test the
 * comment there describes, the name is read and ignored (RelBoxNameIgnored).
 */
module EntityProperties {
  import opened Wrappers
  import opened Chars
  import opened Values
  import opened Scan
  import opened Entities

  /** At ':' readName reads nothing and readWhitespace skips nothing. */
  lemma NothingAtColon(src: seq<char>, b: nat)
    requires b <= |src| && NextIs(src, b, ':')
    ensures ReadName(src, b) == Ok(([], b)) && WsEnd(src, b) == b
  {
    assert src[b..b] == [];
  }

  /** Both versions agree on a box without a name; as written, a box whose first
      character after '[' and whitespace is not ':' is always rejected, and
      corrected, its name is read and the rest follows it as in a box without one. */
  lemma RelBoxNameIgnored(src: seq<char>, i: nat)
    requires i <= |src| && NextIs(src, i, '[')
    ensures var b := WsEnd(src, i + 1);
      (NextIs(src, b, ':') ==> ReadRelationshipBox(src, i) == RelBoxRest(src, b) &&
                               ReadRelationshipBoxAsWritten(src, i) == RelBoxRest(src, b)) &&
      (!NextIs(src, b, ':') ==> ReadRelationshipBoxAsWritten(src, i) == Err(UnexpectedCharacter)) &&
      (!NextIs(src, b, ':') && ReadName(src, b).Ok? ==>
         ReadRelationshipBox(src, i) == RelBoxRest(src, WsEnd(src, ReadName(src, b).value.1))) &&
      (!NextIs(src, b, ':') && ReadName(src, b).Err? ==>
         ReadRelationshipBox(src, i) == Err(ReadName(src, b).error))
  {
    var b := WsEnd(src, i + 1);
    if NextIs(src, b, ':') {
      NothingAtColon(src, b);
    }
  }

  /** The names in `[r:KNOWS]`. */
  lemma KnowsNames(src: seq<char>)
    requires src == "[r:KNOWS]"
    ensures WsEnd(src, 1) == 1 && ReadName(src, 1) == Ok(("r", 2)) && WsEnd(src, 2) == 2
    ensures ReadName(src, 3) == Ok(("KNOWS", 8))
  {
    assert |src| == 9 && src[0] == '[' && src[1] == 'r' && src[2] == ':' && src[8] == ']';
    assert src[3] == 'K' && src[4] == 'N' && src[5] == 'O' && src[6] == 'W' && src[7] == 'S';
    assert NameEnd(src, 2) == 2 && NameEnd(src, 1) == 2;
    assert src[1..2] == "r";
    assert NameEnd(src, 8) == 8 && NameEnd(src, 7) == 8 && NameEnd(src, 6) == 8;
    assert NameEnd(src, 5) == 8 && NameEnd(src, 4) == 8 && NameEnd(src, 3) == 8;
    assert src[3..8] == "KNOWS";
  }

  /** The tail of `[r:KNOWS]` after the type: no property map, then ']'. */
  lemma KnowsTail(src: seq<char>)
    requires src == "[r:KNOWS]"
    ensures RelBoxTail(src, 8, "KNOWS") == Ok((RelBox("KNOWS", None), 9))
  {
    assert |src| == 9 && src[8] == ']';
    assert WsEnd(src, 8) == 8;
    assert OptPropertyMap(src, 8) == Ok((None, 8));
  }

  /** `[r:KNOWS]`: rejected as written, read as a KNOWS relationship without
      properties when corrected. */
  lemma RelBoxNameAsWritten()
    ensures ReadRelationshipBoxAsWritten("[r:KNOWS]", 0) == Err(UnexpectedCharacter)
    ensures ReadRelationshipBox("[r:KNOWS]", 0) == Ok((RelBox("KNOWS", None), 9))
  {
    var src := "[r:KNOWS]";
    assert |src| == 9 && src[0] == '[' && src[1] == 'r' && src[2] == ':';
    KnowsNames(src);
    KnowsTail(src);
    hide ReadName, WsEnd, RelBoxTail, ReadRelationshipBox, ReadRelationshipBoxAsWritten;
    RelBoxNameIgnored(src, 0);
  }
}
