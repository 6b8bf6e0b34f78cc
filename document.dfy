/**
 * readSubgraph as a function of the input: the statements of a Geoff document
 * (paths of nodes and relationships, hook declarations, comments, a boundary)
 * and what each does to the subgraph being built.
 *
 * A node read from the input is an object; its Entry records which node read it
 * is (its serial) and its fields at the time it was read. The subgraph holds one
 * object per name. Merging a node into the subgraph merges it into the stored
 * object of the same name, unless it is that very object, which the serial tells.
 */
module Document {
  import opened Wrappers
  import opened Chars
  import opened Values
  import opened Scan
  import opened Entities
  import opened Nodes

  /** The name the constructor gives the k-th node read when it has none, in a text
      of width characters: a stand-in for UUID.randomUUID. It is longer than the text,
      so no name read from the text can be it (DocumentProperties.NodeNameNotAnon). */
  function AnonName(width: nat, k: nat): (s: string)
    ensures |s| > width && s[0] == '#'
  {
    seq(width + 1, _ => '#') + NatText(k)
  }

  /** A node object: which node read made it, and its fields. */
  datatype Entry = Entry(serial: nat, node: NodeVal)

  /** A relationship of the subgraph, between the nodes of two names. */
  datatype Rel = Rel(start: string, relType: string, props: Props, end: string)

  /** The subgraph: its nodes by name, its relationships in order, its comments. */
  datatype Doc = Doc(nodes: map<string, Entry>, rels: seq<Rel>, comments: seq<string>)

  const EmptyDoc: Doc := Doc(map[], [], [])

  /** Every node is stored under its own name. */
  ghost predicate WellNamed(doc: Doc) {
    forall n :: n in doc.nodes ==> doc.nodes[n].node.name == n
  }

  /** Every relationship joins two nodes of the subgraph. */
  ghost predicate Closed(doc: Doc) {
    forall k :: 0 <= k < |doc.rels| ==> doc.rels[k].start in doc.nodes && doc.rels[k].end in doc.nodes
  }

  /** The object `new AbstractNode(name, labels, properties)` makes for the k-th node
      read from a text of width characters. */
  function MakeNode(lit: NodeLit, k: nat, width: nat): (e: Entry)
    ensures e.serial == k
    ensures e.node == NewNode(lit.name, lit.labels, lit.props, AnonName(width, k))
  {
    Entry(k, NewNode(lit.name, lit.labels, lit.props, AnonName(width, k)))
  }

  /** Subgraph.mergeNode: a node of a new name is stored as it is; a node of a stored
      name is merged into the stored one, which stays stored (and is left as it is
      when it is the very same object). */
  function MergeDoc(doc: Doc, e: Entry): (r: Doc)
    ensures r.rels == doc.rels && r.comments == doc.comments
    ensures r.nodes.Keys == doc.nodes.Keys + {e.node.name}
    ensures forall n :: n in doc.nodes && n != e.node.name ==> r.nodes[n] == doc.nodes[n]
    ensures e.node.name !in doc.nodes ==> r.nodes[e.node.name] == e
    ensures e.node.name in doc.nodes && doc.nodes[e.node.name].serial != e.serial ==>
      r.nodes[e.node.name] == Entry(doc.nodes[e.node.name].serial, NodesMerged(doc.nodes[e.node.name].node, e.node))
    ensures e.node.name in doc.nodes && doc.nodes[e.node.name].serial == e.serial ==> r == doc
  {
    var name := e.node.name;
    if name !in doc.nodes then doc.(nodes := doc.nodes[name := e])
    else
      var cur := doc.nodes[name];
      if cur.serial == e.serial then doc
      else doc.(nodes := doc.nodes[name := Entry(cur.serial, NodesMerged(cur.node, e.node))])
  }

  // ---------------------------------------------------------------- paths

  /** An entry of the local relationship list of readSubgraph: the two node objects,
      the type and the properties. */
  datatype PathRel = PathRel(start: Entry, relType: string, props: Props, end: Entry)

  /** What one arrow-box-arrow-node segment adds: other→node when the first arrow is
      "<-", node→other when the second is "->", both with the box's type and
      properties (a null property map is the empty one). */
  function SegmentRels(a1: Arrow, box: RelBox, a2: Arrow, node: Entry, other: Entry): (r: seq<PathRel>)
    ensures |r| == (if a1 == Incoming then 1 else 0) + (if a2 == Outgoing then 1 else 0)
    ensures node != other ==> (PathRel(other, box.relType, box.props.GetOr(map[]), node) in r <==> a1 == Incoming)
    ensures node != other ==> (PathRel(node, box.relType, box.props.GetOr(map[]), other) in r <==> a2 == Outgoing)
    ensures forall k :: 0 <= k < |r| ==> r[k].relType == box.relType && r[k].props == box.props.GetOr(map[])
    ensures forall k :: 0 <= k < |r| ==> (r[k].start, r[k].end) == (other, node) || (r[k].start, r[k].end) == (node, other)
    ensures a1 == Incoming && a2 == Outgoing ==> r[0].start == other && r[1].start == node
  {
    var p := box.props.GetOr(map[]);
    (if a1 == Incoming then [PathRel(other, box.relType, p, node)] else []) +
    (if a2 == Outgoing then [PathRel(node, box.relType, p, other)] else [])
  }

  /** One segment of a path after `node`: an arrow, a relationship box, an arrow and
      the next node, which is the count-th node read. Two plain "-" arrows are
      "Lack of direction", raised once the next node has been read. */
  function Segment(src: seq<char>, i: nat, count: nat, node: Entry): (r: Result<(seq<PathRel>, Entry, nat), ParseError>)
    requires i <= |src|
    ensures r.Ok? ==> i < r.value.2 <= |src| && r.value.1.serial == count
    ensures r.Ok? ==> forall k :: 0 <= k < |r.value.0| ==>
      (r.value.0[k].start == node || r.value.0[k].start == r.value.1) &&
      (r.value.0[k].end == node || r.value.0[k].end == r.value.1)
  {
    var a1 :- ReadArrow(src, i);
    var box :- ReadRelationshipBox(src, a1.1);
    var a2 :- ReadArrow(src, box.1);
    var o :- ReadNode(src, a2.1);
    var other := MakeNode(o.0, count, |src|);
    if a1.0 == Undirected && a2.0 == Undirected then Err(LackOfDirection)
    else Ok((SegmentRels(a1.0, box.0, a2.0, node, other), other, o.1))
  }

  /** The segment loop of readSubgraph, while '<' or '-' follows: returns the
      relationships gathered, the last node, where it ends and how many nodes have
      been read. */
  function PathLoop(src: seq<char>, i: nat, count: nat, node: Entry, acc: seq<PathRel>): (r: Result<(seq<PathRel>, Entry, nat, nat), ParseError>)
    requires i <= |src|
    ensures r.Ok? ==> i <= r.value.2 <= |src| && count <= r.value.3
    ensures r.Ok? ==> !NextIs(src, r.value.2, '<') && !NextIs(src, r.value.2, '-')
    decreases |src| - i, 1
  {
    if NextIs(src, i, '<') || NextIs(src, i, '-') then PathTurn(src, i, count, node, acc)
    else Ok((acc, node, i, count))
  }

  /** One turn of the segment loop: a segment, then the rest of the loop from where
      it ends. */
  function PathTurn(src: seq<char>, i: nat, count: nat, node: Entry, acc: seq<PathRel>): (r: Result<(seq<PathRel>, Entry, nat, nat), ParseError>)
    requires i <= |src|
    ensures r.Ok? ==> i < r.value.2 <= |src| && count < r.value.3
    ensures r.Ok? ==> !NextIs(src, r.value.2, '<') && !NextIs(src, r.value.2, '-')
    decreases |src| - i, 0
  {
    var s :- Segment(src, i, count, node);
    PathLoop(src, s.2, count + 1, s.1, acc + s.0)
  }

  /** Every endpoint in prs has a serial of at least lo. */
  predicate NewSince(prs: seq<PathRel>, lo: nat) {
    forall k :: 0 <= k < |prs| ==> prs[k].start.serial >= lo && prs[k].end.serial >= lo
  }

  /** A successful path whose endpoints and last node all have serials of at least lo. */
  predicate NewPath(r: Result<(seq<PathRel>, Entry, nat, nat), ParseError>, lo: nat) {
    r.Ok? ==> NewSince(r.value.0, lo) && r.value.1.serial >= lo
  }

  /** A path only connects nodes read since it began: from a node whose serial is at
      least lo, with at least lo nodes read, every endpoint and the last node have a
      serial of at least lo. */
  lemma {:induction false} PathLoopNew(src: seq<char>, i: nat, count: nat, node: Entry, acc: seq<PathRel>, lo: nat)
    requires i <= |src| && lo <= node.serial && lo <= count && NewSince(acc, lo)
    ensures NewPath(PathLoop(src, i, count, node, acc), lo)
    decreases |src| - i, 1
  {
    if NextIs(src, i, '<') || NextIs(src, i, '-') {
      PathTurnNew(src, i, count, node, acc, lo);
    }
  }

  lemma {:induction false} PathTurnNew(src: seq<char>, i: nat, count: nat, node: Entry, acc: seq<PathRel>, lo: nat)
    requires i <= |src| && lo <= node.serial && lo <= count && NewSince(acc, lo)
    ensures NewPath(PathTurn(src, i, count, node, acc), lo)
    decreases |src| - i, 0
  {
    var s := Segment(src, i, count, node);
    if s.Ok? {
      assert PathTurn(src, i, count, node, acc) == PathLoop(src, s.value.2, count + 1, s.value.1, acc + s.value.0);
      ExtendsNew(acc, s.value.0, node, s.value.1, lo);
      PathLoopNew(src, s.value.2, count + 1, s.value.1, acc + s.value.0, lo);
    }
  }

  /** Appending relationships between two new nodes keeps every endpoint new. */
  lemma ExtendsNew(p: seq<PathRel>, q: seq<PathRel>, a: Entry, b: Entry, lo: nat)
    requires NewSince(p, lo) && lo <= a.serial && lo <= b.serial
    requires forall k :: 0 <= k < |q| ==>
      (q[k].start == a || q[k].start == b) && (q[k].end == a || q[k].end == b)
    ensures NewSince(p + q, lo)
  {
    forall k | 0 <= k < |p + q|
      ensures (p + q)[k].start.serial >= lo && (p + q)[k].end.serial >= lo
    {
      if k >= |p| {
        assert (p + q)[k] == q[k - |p|];
      }
    }
  }

  /** AbstractRelationship.mergeProperties: the trailing property map overwrites. */
  function WithProps(r: PathRel, props: Option<Props>): PathRel {
    if props.None? then r else r.(props := Overwrite(r.props, props.value))
  }

  /** Subgraph.addRelationship: both nodes are merged, then the relationship is added
      between their names. */
  function AddRel(doc: Doc, r: PathRel): (d: Doc)
    ensures d.rels == doc.rels + [Rel(r.start.node.name, r.relType, r.props, r.end.node.name)]
    ensures d.comments == doc.comments
    ensures d.nodes.Keys == doc.nodes.Keys + {r.start.node.name, r.end.node.name}
  {
    var d2 := MergeDoc(MergeDoc(doc, r.start), r.end);
    d2.(rels := d2.rels + [Rel(r.start.node.name, r.relType, r.props, r.end.node.name)])
  }

  /** The `for (rel : relationships)` loop: each relationship takes the trailing
      properties and is added, in order. */
  function AddRels(doc: Doc, rels: seq<PathRel>, props: Option<Props>): (d: Doc)
    ensures d.comments == doc.comments
    ensures |d.rels| == |doc.rels| + |rels|
    decreases |rels|
  {
    if rels == [] then doc
    else AddRels(AddRel(doc, WithProps(rels[0], props)), rels[1..], props)
  }

  /** The end of a path statement: with relationships, each takes the trailing
      properties and is added; without, the (last) node takes them and is merged. */
  function Attach(doc: Doc, rels: seq<PathRel>, last: Entry, props: Option<Props>): (d: Doc)
    ensures d.comments == doc.comments
  {
    if |rels| > 0 then AddRels(doc, rels, props)
    else MergeDoc(doc, Entry(last.serial, PropertiesMerged(last.node, props)))
  }

  /** What a path statement reads: a node, its segments, whitespace and an optional
      trailing property map. Returns the relationships, the last node, the
      properties, where it ends and how many nodes have been read. */
  function PathParts(src: seq<char>, i: nat, count: nat): (r: Result<(seq<PathRel>, Entry, Option<Props>, nat, nat), ParseError>)
    requires i <= |src|
    ensures r.Ok? ==> i < r.value.3 <= |src| && count < r.value.4
  {
    var n :- ReadNode(src, i);
    PathTail(src, n.1, count + 1, MakeNode(n.0, count, |src|))
  }

  /** The part of a path statement after its first node. */
  function PathTail(src: seq<char>, i: nat, count: nat, first: Entry): (r: Result<(seq<PathRel>, Entry, Option<Props>, nat, nat), ParseError>)
    requires i <= |src|
    ensures r.Ok? ==> i <= r.value.3 <= |src| && count <= r.value.4
  {
    var path :- PathLoop(src, i, count, first, []);
    var t :- OptPropertyMap(src, WsEnd(src, path.2));
    Ok((path.0, path.1, t.0, t.1, path.3))
  }

  /** PathTail step by step: the segment loop, then the optional property map
      after whitespace. */
  lemma PathTailSteps(src: seq<char>, i: nat, count: nat, first: Entry)
    requires i <= |src|
    ensures var p := PathLoop(src, i, count, first, []);
      var t := PathTail(src, i, count, first);
      (p.Err? ==> t == Err(p.error)) &&
      (p.Ok? ==> var m := OptPropertyMap(src, WsEnd(src, p.value.2));
         (m.Err? ==> t == Err(m.error)) &&
         (m.Ok? ==> t == Ok((p.value.0, p.value.1, m.value.0, m.value.1, p.value.3))))
  {
  }

  /** A path statement: what it reads, attached to the subgraph. */
  function PathStatement(src: seq<char>, i: nat, count: nat, doc: Doc): (r: Result<(Doc, nat, nat), ParseError>)
    requires i <= |src|
    ensures r.Ok? ==> i < r.value.1 <= |src| && count < r.value.2
  {
    var p :- PathParts(src, i, count);
    Ok((Attach(doc, p.0, p.1, p.2), p.3, p.4))
  }

  // ---------------------------------------------------------------- hooks

  /** The key loop of a hook declaration, until '=': a name, whitespace, ':' and
      whitespace each. */
  function HookKeys(src: seq<char>, i: nat, acc: seq<string>): (r: Result<(seq<string>, nat), ParseError>)
    requires i <= |src|
    ensures r.Ok? ==> i <= r.value.1 <= |src| && NextIs(src, r.value.1, '=')
    ensures r.Ok? ==> |acc| <= |r.value.0| && r.value.0[..|acc|] == acc
    decreases |src| - i
  {
    if NextIs(src, i, '=') then Ok((acc, i))
    else
      var k :- ReadName(src, i);
      var c :- ReadChar(src, WsEnd(src, k.1), ':');
      var r := HookKeys(src, WsEnd(src, c), acc + [k.0]);
      assert r.Ok? ==> r.value.0[..|acc|] == (acc + [k.0])[..|acc|];
      r
  }

  /** The key loop ends at '='. */
  lemma HookKeysEnd(src: seq<char>, i: nat, acc: seq<string>)
    requires i <= |src| && NextIs(src, i, '=')
    ensures HookKeys(src, i, acc) == Ok((acc, i))
  {
  }

  /** One round of the key loop: a name, whitespace, ':' and whitespace, or the
      error of the name or of the ':'. */
  lemma HookKeysStep(src: seq<char>, i: nat, acc: seq<string>)
    requires i <= |src| && !NextIs(src, i, '=')
    ensures var k := ReadName(src, i);
      (k.Err? ==> HookKeys(src, i, acc) == Err(k.error)) &&
      (k.Ok? ==> var c := WsEnd(src, k.value.1);
         (!NextIs(src, c, ':') ==> HookKeys(src, i, acc) == Err(UnexpectedCharacter)) &&
         (NextIs(src, c, ':') ==> HookKeys(src, i, acc) == HookKeys(src, WsEnd(src, c + 1), acc + [k.value.0])))
  {
    hide ReadName, Literals.ReadString, NameEnd, WsEnd;
  }

  /** `subgraph.mergeNode(node).setHook(label, keys, optional)`: the hook is set on
      the node stored under the node's name. */
  function HookDoc(doc: Doc, e: Entry, hook: string, keys: seq<string>, optional: bool): (d: Doc)
    ensures e.node.name in d.nodes
    ensures d.nodes.Keys == doc.nodes.Keys + {e.node.name}
    ensures var stored := MergeDoc(doc, e).nodes[e.node.name];
      d.nodes[e.node.name] == Entry(stored.serial, HookSet(stored.node, hook, Some(keys), optional))
    ensures forall n :: n in doc.nodes && n != e.node.name ==> d.nodes[n] == doc.nodes[n]
    ensures d.rels == doc.rels && d.comments == doc.comments
  {
    var m := MergeDoc(doc, e);
    var stored := m.nodes[e.node.name];
    m.(nodes := m.nodes[e.node.name := Entry(stored.serial, HookSet(stored.node, hook, Some(keys), optional))])
  }

  /** What a hook declaration reads before its node: ':' whitespace label whitespace
      ':' whitespace, the keys, "=>", and an optional '?'. Returns the label, the
      keys, whether it is optional and where the node starts. */
  function HookHead(src: seq<char>, i: nat): (r: Result<(string, seq<string>, bool, nat), ParseError>)
    requires i <= |src|
    ensures r.Ok? ==> i < r.value.3 <= |src|
  {
    var a :- ReadChar(src, i, ':');
    var l :- ReadName(src, WsEnd(src, a));
    var b :- ReadChar(src, WsEnd(src, l.1), ':');
    HookTail(src, WsEnd(src, b), l.0)
  }

  /** The rest of a hook declaration's head, after the label: the keys, "=>" and an
      optional '?'. */
  function HookTail(src: seq<char>, i: nat, hook: string): (r: Result<(string, seq<string>, bool, nat), ParseError>)
    requires i <= |src|
    ensures r.Ok? ==> i < r.value.3 <= |src| && r.value.0 == hook
  {
    var keys :- HookKeys(src, i, []);
    var c := keys.1 + 1;  // readChar('=') cannot fail here: the key loop stopped at '='
    var d :- ReadChar(src, c, '>');
    var optional := NextIs(src, d, '?');
    Ok((hook, keys.0, optional, if optional then d + 1 else d))
  }

  /** A hook declaration: its head, then the node the hook is set on. */
  function HookStatement(src: seq<char>, i: nat, count: nat, doc: Doc): (r: Result<(Doc, nat, nat), ParseError>)
    requires i <= |src|
    ensures r.Ok? ==> i < r.value.1 <= |src| && r.value.2 == count + 1
  {
    var h :- HookHead(src, i);
    HookNode(src, h.3, count, doc, h.0, h.1, h.2)
  }

  /** The rest of a hook declaration, after its head: the node, merged into doc, and
      the hook set on the entry stored under its name. */
  function HookNode(src: seq<char>, i: nat, count: nat, doc: Doc, hook: string, keys: seq<string>,
                    optional: bool): (r: Result<(Doc, nat, nat), ParseError>)
    requires i <= |src|
    ensures r.Ok? ==> i < r.value.1 <= |src| && r.value.2 == count + 1
  {
    var n :- ReadNode(src, i);
    Ok((HookDoc(doc, MakeNode(n.0, count, |src|), hook, keys, optional), n.1, count + 1))
  }

  // ---------------------------------------------------------------- statements

  /** A comment statement: the comment is added to doc's comments, after those
      there already. */
  function CommentStatement(src: seq<char>, i: nat, count: nat, doc: Doc): (r: Result<(Doc, nat, nat), ParseError>)
    requires i <= |src|
    ensures r.Ok? ==> i < r.value.1 <= |src| && r.value.2 == count
    ensures r.Ok? ==> r.value.0.nodes == doc.nodes && r.value.0.rels == doc.rels &&
                      |r.value.0.comments| == |doc.comments| + 1 && r.value.0.comments[..|doc.comments|] == doc.comments
  {
    var c :- ReadComment(src, i);
    Ok((doc.(comments := doc.comments + [c.0]), c.1, count))
  }

  /** What one statement leaves: the subgraph, where it ends, how many nodes have been
      read, and whether it was a boundary. */
  datatype After = After(doc: Doc, pos: nat, count: nat, boundary: bool)

  /** One round of the readSubgraph loop, before its closing readWhitespace: the
      lookahead picks a path '(', a hook ':', a comment '/' or a boundary '~'; any
      other character is unexpected. */
  function Statement(src: seq<char>, i: nat, count: nat, doc: Doc): (r: Result<After, ParseError>)
    requires i < |src|
    ensures r.Ok? ==> i < r.value.pos <= |src| && count <= r.value.count
    ensures r.Ok? ==> (r.value.boundary <==> src[i] == '~')
    ensures r.Ok? && r.value.boundary ==> r.value.doc == doc && r.value.count == count
    ensures src[i] !in "(:/~" ==> r == Err(UnexpectedCharacter)
  {
    if src[i] == '(' then
      var p :- PathStatement(src, i, count, doc);
      Ok(After(p.0, p.1, p.2, false))
    else if src[i] == ':' then
      var h :- HookStatement(src, i, count, doc);
      Ok(After(h.0, h.1, h.2, false))
    else if src[i] == '/' then
      var c :- CommentStatement(src, i, count, doc);
      Ok(After(c.0, c.1, c.2, false))
    else if src[i] == '~' then
      var b :- ReadBoundary(src, i);
      Ok(After(doc, b, count, true))
    else Err(UnexpectedCharacter)
  }

  /** The readSubgraph loop: statements, each followed by whitespace, until the
      input is exhausted or a boundary has been read. */
  function DocLoop(src: seq<char>, i: nat, count: nat, doc: Doc): (r: Result<(Doc, nat, nat), ParseError>)
    requires i <= |src|
    ensures r.Ok? ==> i <= r.value.1 <= |src| && count <= r.value.2
    decreases |src| - i
  {
    if i == |src| then Ok((doc, i, count))
    else
      var s :- Statement(src, i, count, doc);
      var j := WsEnd(src, s.pos);
      if s.boundary then Ok((s.doc, j, s.count)) else DocLoop(src, j, s.count, s.doc)
  }

  /** readSubgraph, started at i after `count` nodes have been read: leading
      whitespace, then the statement loop, into a new subgraph. */
  function ReadSubgraph(src: seq<char>, i: nat, count: nat): (r: Result<(Doc, nat, nat), ParseError>)
    requires i <= |src|
    ensures r.Ok? ==> i <= r.value.1 <= |src|
  {
    DocLoop(src, WsEnd(src, i), count, EmptyDoc)
  }
}
