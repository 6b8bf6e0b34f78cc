/**
 * The entity sub-grammar of GeoffReader: arrows, boundaries, comments, names,
 * labels, property maps, node boxes and relationship boxes.
 */
module Entities {
  import opened Wrappers
  import opened Chars
  import opened Values
  import opened Scan
  import opened Literals
  import JsonString

  /** The three arrows readArrow returns: "<-", "-" and "->". */
  datatype Arrow = Incoming | Undirected | Outgoing

  /** readArrow. */
  function ReadArrow(src: seq<char>, i: nat): (r: Result<(Arrow, nat), ParseError>)
    requires i <= |src|
    ensures r.Ok? ==> i < r.value.1 <= |src|
    ensures NextIs(src, i, '<') ==>
      (NextIs(src, i + 1, '-') ==> r == Ok((Incoming, i + 2))) &&
      (!NextIs(src, i + 1, '-') ==> r == Err(UnexpectedCharacter))
    ensures NextIs(src, i, '-') && NextIs(src, i + 1, '>') ==> r == Ok((Outgoing, i + 2))
    ensures NextIs(src, i, '-') && !NextIs(src, i + 1, '>') ==> r == Ok((Undirected, i + 1))
    ensures !NextIs(src, i, '<') && !NextIs(src, i, '-') ==> r == Err(BrokenArrow)
  {
    if NextIs(src, i, '<') then
      var b :- ReadChar(src, i + 1, '-');
      Ok((Incoming, b))
    else if NextIs(src, i, '-') then
      if NextIs(src, i + 1, '>') then Ok((Outgoing, i + 2)) else Ok((Undirected, i + 1))
    else Err(BrokenArrow)
  }

  /** The `while (nextCharEquals('~'))` loop of readBoundary. */
  function TildeEnd(src: seq<char>, i: nat): (j: nat)
    requires i <= |src|
    ensures i <= j <= |src|
    ensures forall k :: i <= k < j ==> src[k] == '~'
    ensures !NextIs(src, j, '~')
    decreases |src| - i
  {
    if NextIs(src, i, '~') then TildeEnd(src, i + 1) else i
  }

  /** readBoundary: four tildes, then every tilde that follows. */
  function ReadBoundary(src: seq<char>, i: nat): (r: Result<nat, ParseError>)
    requires i <= |src|
    ensures r.Ok? <==> i + 4 <= |src| && src[i] == '~' && src[i + 1] == '~' && src[i + 2] == '~' && src[i + 3] == '~'
    ensures r.Ok? ==> r.value == TildeEnd(src, i + 4)
    ensures r.Err? ==> r.error == UnexpectedCharacter
  {
    var a :- ReadChar(src, i, '~');
    var b :- ReadChar(src, a, '~');
    var c :- ReadChar(src, b, '~');
    var d :- ReadChar(src, c, '~');
    Ok(TildeEnd(src, d))
  }

  const CommentEnd: seq<char> := ['*', '/']

  /** readComment: a slash and a star, then readUntil of a star and a slash; the last two characters read are cut
      off and the rest trimmed. When the input ends before two characters were read,
      substring throws. */
  function ReadComment(src: seq<char>, i: nat): (r: Result<(string, nat), ParseError>)
    requires i <= |src|
    ensures r.Ok? ==> i + 2 < r.value.1 <= |src|
  {
    var a :- ReadChar(src, i, '/');
    var b :- ReadChar(src, a, '*');
    var j := UntilStrEnd(src, b, b, CommentEnd);
    // the text read is src[b..j]; substring cuts its last two characters
    if j - b < 2 then Err(CommentTooShort) else Ok((Trim(src[b..j - 2]), j))
  }

  /** What readComment gives: "Unexpected character" without a leading slash and
      star; otherwise the text up to where readUntil of a star and a slash stops,
      CommentTooShort when that is less than two characters, and else that text
      without its last two characters, trimmed. */
  lemma ReadCommentText(src: seq<char>, i: nat)
    requires i <= |src|
    ensures !(NextIs(src, i, '/') && NextIs(src, i + 1, '*')) ==> ReadComment(src, i) == Err(UnexpectedCharacter)
    ensures NextIs(src, i, '/') && NextIs(src, i + 1, '*') ==>
      var j := UntilStrEnd(src, i + 2, i + 2, CommentEnd);
      (j < i + 4 ==> ReadComment(src, i) == Err(CommentTooShort)) &&
      (i + 4 <= j ==> ReadComment(src, i) == Ok((Trim(src[i + 2..j - 2]), j)))
  {
    hide Trim, UntilStrEnd;
  }

  /** readName: a quoted string, or a possibly empty run of letters, digits and
      underscores. */
  function ReadName(src: seq<char>, i: nat): (r: Result<(string, nat), ParseError>)
    requires i <= |src|
    ensures r.Ok? ==> i <= r.value.1 <= |src|
    ensures r.Ok? && !NextIs(src, i, '"') ==> r.value.0 == src[i..r.value.1]
  {
    if NextIs(src, i, '"') then ReadString(src, i)
    else
      var j := NameEnd(src, i);
      Ok((src[i..j], j))
  }

  /** The two forms of a name: after '"' it is exactly the string literal read
      there; otherwise it is the whole run of letters, digits and underscores at i,
      however long, and reading stops at the first other character. */
  lemma ReadNameCases(src: seq<char>, i: nat)
    requires i <= |src|
    ensures NextIs(src, i, '"') ==> ReadName(src, i) == ReadString(src, i)
    ensures !NextIs(src, i, '"') ==> ReadName(src, i) == Ok((src[i..NameEnd(src, i)], NameEnd(src, i)))
  {
  }

  /** A name read from the text is no longer than the text it was read from. */
  lemma ReadNameShort(src: seq<char>, i: nat)
    requires i <= |src|
    ensures ReadName(src, i).Ok? ==> |ReadName(src, i).value.0| <= ReadName(src, i).value.1 - i
  {
    if NextIs(src, i, '"') {
      var r := ReadString(src, i);
      if r.Ok? {
        JsonString.DecodeShorter(src[i..r.value.1]);
      }
    }
  }

  /** The loop of readLabels: every ':' is followed by a name. */
  function LabelsLoop(src: seq<char>, i: nat, acc: set<string>): (r: Result<(set<string>, nat), ParseError>)
    requires i <= |src|
    ensures r.Ok? ==> i <= r.value.1 <= |src| && acc <= r.value.0
    ensures r.Ok? ==> !NextIs(src, r.value.1, ':')
    decreases |src| - i
  {
    if NextIs(src, i, ':') then
      var n :- ReadName(src, i + 1);
      LabelsLoop(src, n.1, acc + {n.0})
    else Ok((acc, i))
  }

  /** One round of the label loop: ':' and a name, or the name's error. */
  lemma LabelsLoopStep(src: seq<char>, i: nat, acc: set<string>)
    requires i < |src| && src[i] == ':'
    ensures var n := ReadName(src, i + 1);
      (n.Err? ==> LabelsLoop(src, i, acc) == Err(n.error)) &&
      (n.Ok? ==> LabelsLoop(src, i, acc) == LabelsLoop(src, n.value.1, acc + {n.value.0}))
  {
  }

  /** The label loop ends where no ':' follows. */
  lemma LabelsLoopEnd(src: seq<char>, i: nat, acc: set<string>)
    requires i <= |src| && !NextIs(src, i, ':')
    ensures LabelsLoop(src, i, acc) == Ok((acc, i))
  {
  }

  /** readLabels. */
  function ReadLabels(src: seq<char>, i: nat): (r: Result<(set<string>, nat), ParseError>)
    requires i <= |src|
    ensures r.Ok? ==> i <= r.value.1 <= |src|
  {
    LabelsLoop(src, i, {})
  }

  /** readKeyValuePairInto, without the map: a name, ':', a value. */
  function ReadKeyValue(src: seq<char>, i: nat): (r: Result<(string, Value, nat), ParseError>)
    requires i <= |src|
    ensures r.Ok? ==> i < r.value.2 <= |src|
  {
    var k :- ReadName(src, i);
    var a := WsEnd(src, k.1);
    var b :- ReadChar(src, a, ':');
    var c := WsEnd(src, b);
    var v :- ReadValue(src, c);
    Ok((k.0, v.0, v.1))
  }

  /** One round of the comma loop of readPropertyMap: ',', whitespace, a pair,
      whitespace. */
  function NextPair(src: seq<char>, i: nat): (r: Result<(string, Value, nat), ParseError>)
    requires i < |src|
    ensures r.Ok? ==> i < r.value.2 <= |src|
  {
    var kv :- ReadKeyValue(src, WsEnd(src, i + 1));
    Ok((kv.0, kv.1, WsEnd(src, kv.2)))
  }

  /** The comma loop of readPropertyMap; each pair is put into the map, so a later
      pair overwrites an earlier one with the same key. */
  function PairsLoop(src: seq<char>, i: nat, acc: Props): (r: Result<(Props, nat), ParseError>)
    requires i <= |src|
    ensures r.Ok? ==> i <= r.value.1 <= |src| && acc.Keys <= r.value.0.Keys
    decreases |src| - i
  {
    if NextIs(src, i, ',') then
      var kv :- NextPair(src, i);
      PairsLoop(src, kv.2, acc[kv.0 := kv.1])
    else Ok((acc, i))
  }

  /** One round of the pair loop: the next pair is put, or its error ends the loop. */
  lemma PairsLoopStep(src: seq<char>, i: nat, acc: Props)
    requires i < |src| && src[i] == ','
    ensures var kv := NextPair(src, i);
      (kv.Err? ==> PairsLoop(src, i, acc) == Err(kv.error)) &&
      (kv.Ok? ==> PairsLoop(src, i, acc) == PairsLoop(src, kv.value.2, acc[kv.value.0 := kv.value.1]))
  {
  }

  /** readPropertyMap. */
  function ReadPropertyMap(src: seq<char>, i: nat): (r: Result<(Props, nat), ParseError>)
    requires i <= |src|
    ensures r.Ok? ==> i < r.value.1 <= |src|
  {
    var a :- ReadChar(src, i, '{');
    var b := WsEnd(src, a);
    var m :- if NextIs(src, b, '}') then Ok((map[], b))
             else
               var kv :- ReadKeyValue(src, b);
               PairsLoop(src, WsEnd(src, kv.2), map[kv.0 := kv.1]);
    var d :- ReadChar(src, m.1, '}');
    Ok((m.0, d))
  }

  /** The three arguments readNode passes to the AbstractNode constructor; None stands
      for Java's null. */
  datatype NodeLit = NodeLit(name: Option<string>, labels: Option<set<string>>, props: Option<Props>)

  /** An optional property map at i. */
  function OptPropertyMap(src: seq<char>, i: nat): (r: Result<(Option<Props>, nat), ParseError>)
    requires i <= |src|
    ensures r.Ok? ==> i <= r.value.1 <= |src|
    ensures r.Ok? ==> (r.value.0.Some? <==> NextIs(src, i, '{'))
  {
    if NextIs(src, i, '{') then
      var p :- ReadPropertyMap(src, i);
      Ok((Some(p.0), p.1))
    else Ok((None, i))
  }

  /** An optional label list at i. */
  function OptLabels(src: seq<char>, i: nat): (r: Result<(Option<set<string>>, nat), ParseError>)
    requires i <= |src|
    ensures r.Ok? ==> i <= r.value.1 <= |src|
    ensures r.Ok? ==> (r.value.0.Some? <==> NextIs(src, i, ':'))
  {
    if NextIs(src, i, ':') then
      var l :- ReadLabels(src, i);
      Ok((Some(l.0), l.1))
    else Ok((None, i))
  }

  /** What readNode reads between "(" plus whitespace and the closing whitespace. */
  function NodeBody(src: seq<char>, b: nat): (r: Result<(NodeLit, nat), ParseError>)
    requires b <= |src|
    ensures r.Ok? ==> b <= r.value.1 <= |src|
    ensures r.Ok? ==> (r.value.0.name.None? <==> NextIs(src, b, ')') || NextIs(src, b, ':') || NextIs(src, b, '{'))
  {
    if NextIs(src, b, ')') then Ok((NodeLit(None, None, None), b))
    else if NextIs(src, b, ':') then
      var l :- ReadLabels(src, b);
      var p :- OptPropertyMap(src, WsEnd(src, l.1));
      Ok((NodeLit(None, Some(l.0), p.0), p.1))
    else if NextIs(src, b, '{') then
      var p :- ReadPropertyMap(src, b);
      Ok((NodeLit(None, None, Some(p.0)), p.1))
    else NamedNodeBody(src, b)
  }

  /** The last branch of readNode: a name, then optional labels and an optional
      property map, each after whitespace. */
  function NamedNodeBody(src: seq<char>, b: nat): (r: Result<(NodeLit, nat), ParseError>)
    requires b <= |src|
    ensures r.Ok? ==> b <= r.value.1 <= |src| && r.value.0.name.Some?
  {
    var n :- ReadName(src, b);
    var l :- OptLabels(src, WsEnd(src, n.1));
    var p :- OptPropertyMap(src, WsEnd(src, l.1));
    Ok((NodeLit(Some(n.0), l.0, p.0), p.1))
  }

  /** readNode. */
  function ReadNode(src: seq<char>, i: nat): (r: Result<(NodeLit, nat), ParseError>)
    requires i <= |src|
    ensures r.Ok? ==> i < r.value.1 <= |src|
  {
    var a :- ReadChar(src, i, '(');
    var body :- NodeBody(src, WsEnd(src, a));
    var f :- ReadChar(src, WsEnd(src, body.1), ')');
    Ok((body.0, f))
  }

  /** What readRelationshipBox produces: the type and the optional property map. */
  datatype RelBox = RelBox(relType: string, props: Option<Props>)

  /** The part of readRelationshipBox after the name: ':' type, optional property map, ']'. */
  function RelBoxRest(src: seq<char>, c: nat): (r: Result<(RelBox, nat), ParseError>)
    requires c <= |src|
    ensures r.Ok? ==> c < r.value.1 <= |src|
  {
    var d :- ReadChar(src, c, ':');
    var t :- ReadName(src, d);
    RelBoxTail(src, t.1, t.0)
  }

  /** After the type: whitespace, an optional property map, whitespace and ']'. */
  function RelBoxTail(src: seq<char>, c: nat, relType: string): (r: Result<(RelBox, nat), ParseError>)
    requires c <= |src|
    ensures r.Ok? ==> c < r.value.1 <= |src| && r.value.0.relType == relType
  {
    var p :- OptPropertyMap(src, WsEnd(src, c));
    var f :- ReadChar(src, WsEnd(src, p.1), ']');
    Ok((RelBox(relType, p.0), f))
  }

  /** readRelationshipBox as written: the relationship name is skipped only when the
      next character is ':', where readName reads nothing. */
  function ReadRelationshipBoxAsWritten(src: seq<char>, i: nat): (r: Result<(RelBox, nat), ParseError>)
    requires i <= |src|
    ensures r.Ok? ==> i < r.value.1 <= |src|
  {
    var a :- ReadChar(src, i, '[');
    var b := WsEnd(src, a);
    var c :- if NextIs(src, b, ':') then
               var n :- ReadName(src, b);
               Ok(WsEnd(src, n.1))
             else Ok(b);
    RelBoxRest(src, c)
  }

  /** readRelationshipBox with the name test the comment describes: a name is read
      and ignored when one is present, that is, when the next character is not ':'. */
  function ReadRelationshipBox(src: seq<char>, i: nat): (r: Result<(RelBox, nat), ParseError>)
    requires i <= |src|
    ensures r.Ok? ==> i < r.value.1 <= |src|
  {
    var a :- ReadChar(src, i, '[');
    var b := WsEnd(src, a);
    var c :- if !NextIs(src, b, ':') then
               var n :- ReadName(src, b);
               Ok(WsEnd(src, n.1))
             else Ok(b);
    RelBoxRest(src, c)
  }
}
