/**
 * Properties of readSubgraph's statements: when a segment lacks a direction,
 * where a trailing property map goes, what a hook declaration's head reads,
 * and that a boundary ends the document.
 */
module DocumentProperties {
  import opened Wrappers
  import opened Values
  import opened Scan
  import opened Entities
  import opened Nodes
  import opened Document

  /** A segment whose arrows, box and next node were all read fails with "Lack of
      direction" exactly when both arrows are plain "-". A segment with one plain
      arrow and one that points away from the segment, such as `->[:T]-`, is read
      and adds no relationship. */
  lemma SegmentDirection(src: seq<char>, i: nat, count: nat, node: Entry)
    requires i <= |src|
    ensures var a1 := ReadArrow(src, i);
      a1.Ok? ==> var box := ReadRelationshipBox(src, a1.value.1);
      box.Ok? ==> var a2 := ReadArrow(src, box.value.1);
      a2.Ok? ==> var o := ReadNode(src, a2.value.1);
      o.Ok? ==> var s := Segment(src, i, count, node);
        (s == Err(LackOfDirection) <==> a1.value.0 == Undirected && a2.value.0 == Undirected) &&
        (s.Ok? ==> |s.value.0| == (if a1.value.0 == Incoming then 1 else 0) + (if a2.value.0 == Outgoing then 1 else 0))
  {
  }

  /** Where a path statement's trailing property map goes, given what it read: with
      relationships, every one is appended in order with the map merged over its own
      properties; without, the last node takes the map and is merged into the
      subgraph. */
  ghost predicate Trailed(doc: Doc, d: Doc, rels: seq<PathRel>, last: Entry, props: Option<Props>) {
    if |rels| == 0 then d == MergeDoc(doc, Entry(last.serial, PropertiesMerged(last.node, props)))
    else d.rels == doc.rels + TrailedRels(rels, props)
  }

  /** The subgraph relationship a path relationship becomes once it has taken the
      trailing map: between its nodes' names, with the map merged over its own
      properties. */
  function TrailedRel(r: PathRel, props: Option<Props>): (rel: Rel)
    ensures rel.start == r.start.node.name && rel.end == r.end.node.name && rel.relType == r.relType
    ensures props.None? ==> rel.props == r.props
    ensures props.Some? ==> rel.props == Overwrite(r.props, props.value)
  {
    var w := WithProps(r, props);
    Rel(w.start.node.name, w.relType, w.props, w.end.node.name)
  }

  /** Every relationship of a path, in order, after it has taken the trailing map. */
  function TrailedRels(rels: seq<PathRel>, props: Option<Props>): (r: seq<Rel>)
    ensures |r| == |rels| && forall k :: 0 <= k < |rels| ==> r[k] == TrailedRel(rels[k], props)
  {
    if rels == [] then [] else [TrailedRel(rels[0], props)] + TrailedRels(rels[1..], props)
  }

  /** The relationship loop appends, after those already there, each relationship
      between its nodes' names with the trailing map merged over its properties. */
  lemma {:induction false} AddRelsAppends(doc: Doc, rels: seq<PathRel>, props: Option<Props>)
    ensures AddRels(doc, rels, props).rels == doc.rels + TrailedRels(rels, props)
    decreases |rels|
  {
    if rels != [] {
      var d1 := AddRel(doc, WithProps(rels[0], props));
      assert AddRels(doc, rels, props) == AddRels(d1, rels[1..], props);
      assert d1.rels == doc.rels + [TrailedRel(rels[0], props)];
      AddRelsAppends(d1, rels[1..], props);
      assert TrailedRels(rels, props) == [TrailedRel(rels[0], props)] + TrailedRels(rels[1..], props);
      assert (doc.rels + [TrailedRel(rels[0], props)]) + TrailedRels(rels[1..], props)
          == doc.rels + ([TrailedRel(rels[0], props)] + TrailedRels(rels[1..], props));
    }
  }

  /** The end of a path statement puts the trailing map where Trailed says. */
  lemma AttachTrailed(doc: Doc, rels: seq<PathRel>, last: Entry, props: Option<Props>)
    ensures Trailed(doc, Attach(doc, rels, last, props), rels, last, props)
  {
    if |rels| > 0 {
      AddRelsAppends(doc, rels, props);
    }
  }

  /** A path statement fails as its reading does, and otherwise puts the trailing
      map of what it read where Trailed says. */
  lemma PathStatementTrailed(src: seq<char>, i: nat, count: nat, doc: Doc)
    requires i <= |src|
    ensures var p := PathParts(src, i, count);
      var r := PathStatement(src, i, count, doc);
      (p.Err? ==> r == Err(p.error)) &&
      (p.Ok? ==> r.Ok? && r.value.1 == p.value.3 && r.value.2 == p.value.4 &&
                 Trailed(doc, r.value.0, p.value.0, p.value.1, p.value.2))
  {
    var p := PathParts(src, i, count);
    if p.Ok? {
      AttachTrailed(doc, p.value.0, p.value.1, p.value.2);
    }
  }

  /** After the hook's label: the keys are those the key loop reads, in order; then
      "=>" must follow, and the hook is optional exactly when '?' follows that. */
  lemma HookTailReads(src: seq<char>, i: nat, hook: string)
    requires i <= |src|
    ensures var r := HookTail(src, i, hook);
      var k := HookKeys(src, i, []);
      (k.Err? ==> r == Err(k.error)) &&
      (k.Ok? ==> var d := k.value.1 + 1;
         (!NextIs(src, d, '>') ==> r == Err(UnexpectedCharacter)) &&
         (NextIs(src, d, '>') ==>
            r == Ok((hook, k.value.0, NextIs(src, d + 1, '?'), if NextIs(src, d + 1, '?') then d + 2 else d + 1))))
  {
    hide HookKeys;
  }

  /** A hook declaration's head: ':', whitespace, the label, whitespace, ':' and
      whitespace, then HookTail with that label; any step that fails is the error. */
  lemma HookHeadReads(src: seq<char>, i: nat)
    requires i <= |src|
    ensures var r := HookHead(src, i);
      (!NextIs(src, i, ':') ==> r == Err(UnexpectedCharacter)) &&
      (NextIs(src, i, ':') ==> var l := ReadName(src, WsEnd(src, i + 1));
         (l.Err? ==> r == Err(l.error)) &&
         (l.Ok? ==> var c := WsEnd(src, l.value.1);
            (!NextIs(src, c, ':') ==> r == Err(UnexpectedCharacter)) &&
            (NextIs(src, c, ':') ==> r == HookTail(src, WsEnd(src, c + 1), l.value.0))))
  {
    hide ReadName, HookTail;
  }

  /** At a boundary the statement loop returns: the subgraph and the node count are
      those before it, and the position is past the tildes and the whitespace after
      them. Four tildes not following is "Unexpected character". */
  lemma BoundaryEndsLoop(src: seq<char>, i: nat, count: nat, doc: Doc)
    requires i < |src| && src[i] == '~'
    ensures var b := ReadBoundary(src, i);
      (b.Err? ==> DocLoop(src, i, count, doc) == Err(UnexpectedCharacter)) &&
      (b.Ok? ==> DocLoop(src, i, count, doc) == Ok((doc, WsEnd(src, b.value), count)))
  {
    hide ReadBoundary, PathStatement, HookStatement, CommentStatement;
  }

  /** The run of tildes of src, when it reaches the end of src, ends there in any
      text that goes on with something other than a tilde. */
  lemma {:induction false} TildeEndExtends(src: seq<char>, t: seq<char>, i: nat)
    requires i <= |src| && TildeEnd(src, i) == |src| && (t == [] || t[0] != '~')
    ensures TildeEnd(src + t, i) == |src|
    decreases |src| - i
  {
    if i < |src| {
      assert src[i] == '~' && (src + t)[i] == '~';
      TildeEndExtends(src, t, i + 1);
    } else if t != [] {
      assert (src + t)[i] == t[0];
    }
  }

  /** Whatever follows a boundary that ends a document, unless it is one more tilde,
      is never read: the statement loop returns the same subgraph and node count. */
  lemma AfterBoundaryIgnored(src: seq<char>, t: seq<char>, i: nat, count: nat, doc: Doc)
    requires i < |src| && src[i] == '~' && ReadBoundary(src, i) == Ok(|src|)
    requires t == [] || t[0] != '~'
    ensures DocLoop(src + t, i, count, doc) == Ok((doc, WsEnd(src + t, |src|), count))
  {
    var s := src + t;
    assert s[i] == '~' && s[i + 1] == '~' && s[i + 2] == '~' && s[i + 3] == '~';
    TildeEndExtends(src, t, i + 4);
    assert ReadBoundary(s, i) == Ok(|src|);
    BoundaryEndsLoop(s, i, count, doc);
  }

  /** The name of a node literal read from src is never a generated name for src:
      a name read is no longer than src, and a generated one is longer. So a
      quoted name such as "#0" never merges into an unnamed node. */
  lemma NodeNameNotAnon(src: seq<char>, i: nat, k: nat)
    requires i <= |src|
    ensures var r := ReadNode(src, i);
      r.Ok? && r.value.0.name.Some? ==> r.value.0.name.value != AnonName(|src|, k)
  {
    var r := ReadNode(src, i);
    if r.Ok? && r.value.0.name.Some? {
      var b := WsEnd(src, ReadChar(src, i, '(').value);
      assert r.value.0 == NodeBody(src, b).value.0;
      assert NodeBody(src, b) == NamedNodeBody(src, b);
      ReadNameShort(src, b);
      assert |r.value.0.name.value| <= |src|;
    }
  }
}
