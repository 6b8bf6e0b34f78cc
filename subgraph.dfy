/**
 * Subgraph: the nodes (one object per name), relationships and comments that
 * readSubgraph collects and NeoLoader loads. Its abstract value is a
 * Document.Doc: every method is proved to do to that value what the function of
 * the same name in Document does.
 */
module Graph {
  import opened Wrappers
  import opened Values
  import opened Nodes
  import opened Document

  /** Where the nodes come from: the generator of the names of nameless nodes
      (UUID.randomUUID), which also numbers every node made. */
  class NodeSource {
    var count: nat
    /** The nodes made so far; the k-th has serial k. */
    ghost var made: seq<AbstractNode>

    ghost predicate Valid()
      reads this
    {
      |made| == count && forall k :: 0 <= k < |made| ==> made[k].serial == k
    }

    constructor ()
      ensures Valid() && count == 0 && made == []
    {
      count := 0;
      made := [];
    }

    /** `new AbstractNode(name, labels, properties)`, for a node read from a text of
        width characters. */
    method Make(lit: Entities.NodeLit, width: nat) returns (node: AbstractNode)
      requires Valid()
      modifies this
      ensures Valid() && fresh(node)
      ensures count == old(count) + 1 && made == old(made) + [node]
      ensures Entry(node.serial, node.Snapshot()) == MakeNode(lit, old(count), width)
    {
      node := new AbstractNode(lit.name, lit.labels, lit.props, AnonName(width, count), count);
      count := count + 1;
      made := made + [node];
    }
  }

  /** The serial and fields of every node of a name map. */
  ghost function Entries(m: map<string, AbstractNode>): map<string, Entry>
    reads m.Values
  {
    map n | n in m :: Entry(m[n].serial, m[n].Snapshot())
  }

  /** Storing under a name either a new name or the node already there keeps every
      earlier name's node. */
  lemma KeepsStored(m: map<string, AbstractNode>, name: string, stored: AbstractNode)
    requires name in m ==> stored == m[name]
    ensures m[name := stored].Keys == m.Keys + {name}
    ensures forall n :: n in m ==> m[name := stored][n] == m[n]
  {
  }

  /** addRelationship's value: both nodes merged, then the relationship appended. */
  lemma AddRelUnfolds(doc: Doc, r: PathRel)
    ensures var d := MergeDoc(MergeDoc(doc, r.start), r.end);
      AddRel(doc, r) == d.(rels := d.rels + [Rel(r.start.node.name, r.relType, r.props, r.end.node.name)])
  {
  }

  /** A relationship read from a path: its two node objects, its type and its
      properties, which the trailing property map of the path may extend. */
  class AbstractRelationship {
    const start: AbstractNode
    const relType: string
    var properties: Props
    const end: AbstractNode

    constructor (start: AbstractNode, relType: string, properties: Props, end: AbstractNode)
      ensures this.start == start && this.relType == relType && this.properties == properties && this.end == end
    {
      this.start := start;
      this.relType := relType;
      this.properties := properties;
      this.end := end;
    }

    /** mergeProperties: the given map, unless null, overwrites. */
    method MergeProperties(properties: Option<Props>)
      modifies this
      ensures this.properties == (if properties.None? then old(this.properties) else Overwrite(old(this.properties), properties.value))
    {
      if properties.Some? {
        this.properties := Overwrite(this.properties, properties.value);
      }
    }
  }

  /** The node objects of a list of relationships. */
  ghost function Ends(rs: seq<AbstractRelationship>): set<AbstractNode> {
    (set k | 0 <= k < |rs| :: rs[k].start) + (set k | 0 <= k < |rs| :: rs[k].end)
  }

  class Subgraph {
    var nodes: map<string, AbstractNode>
    var relationships: seq<Rel>
    var comments: seq<string>

    /** Every node is stored under its own name. */
    ghost predicate Valid()
      reads this, nodes.Values
    {
      forall n :: n in nodes ==> nodes[n].name == n
    }

    /** The abstract value: serial and fields of every stored node. */
    ghost function Doc(): Document.Doc
      reads this, nodes.Values
    {
      Document.Doc(Entries(nodes), relationships, comments)
    }

    /** Whether node is the object stored under its name. */
    ghost predicate Stores(node: AbstractNode)
      reads this, node
    {
      node.name in nodes && nodes[node.name] == node
    }

    /** Every stored node is one of made, in which serials tell objects apart. */
    ghost predicate MadeBy(source: NodeSource)
      reads this, source
    {
      forall n :: n in nodes ==> nodes[n] in source.made
    }

    /** The node stored under name, if any: all that storing a node of that name may change. */
    ghost function StoredAt(name: string): set<AbstractNode>
      reads this
    {
      if name in nodes then {nodes[name]} else {}
    }

    /** node is the object its entry e models: the same serial and name, and the same
        fields unless it is stored (merging a stored node into itself changes nothing,
        whatever e says of its fields). */
    ghost predicate Modelled(node: AbstractNode, e: Entry)
      reads this, node
    {
      node.serial == e.serial && node.name == e.node.name && (Stores(node) || node.Snapshot() == e.node)
    }

    /** The nodes of every relationship rs[k] are modelled by those of prs[k]. */
    ghost predicate Pending(rs: seq<AbstractRelationship>, prs: seq<PathRel>)
      reads this, nodes.Values, Ends(rs)
    {
      |rs| == |prs| &&
      forall k :: 0 <= k < |rs| ==> Modelled(rs[k].start, prs[k].start) && Modelled(rs[k].end, prs[k].end)
    }

    lemma PendingMore(rs: seq<AbstractRelationship>, prs: seq<PathRel>, rel: AbstractRelationship, pr: PathRel)
      requires Pending(rs, prs) && Modelled(rel.start, pr.start) && Modelled(rel.end, pr.end)
      ensures Pending(rs + [rel], prs + [pr])
    {
      assert forall k :: 0 <= k < |rs| ==> (rs + [rel])[k] == rs[k] && (prs + [pr])[k] == prs[k];
    }

    lemma PendingLess(rs: seq<AbstractRelationship>, prs: seq<PathRel>, rel: AbstractRelationship, pr: PathRel)
      requires Pending(rs + [rel], prs + [pr])
      ensures Pending(rs, prs) && Modelled(rel.start, pr.start) && Modelled(rel.end, pr.end)
    {
      assert (rs + [rel])[|rs|] == rel && (prs + [pr])[|rs|] == pr;
      assert forall k :: 0 <= k < |rs| ==> (rs + [rel])[k] == rs[k] && (prs + [pr])[k] == prs[k];
    }

    constructor ()
      ensures Valid() && Doc() == EmptyDoc && nodes == map[]
    {
      nodes := map[];
      relationships := [];
      comments := [];
    }

    /** order(): the number of nodes. */
    function Order(): (n: nat)
      reads this
      ensures n == |nodes.Keys|
    {
      |nodes|
    }

    /** size(): the number of relationships. */
    function Size(): (n: nat)
      reads this
      ensures n == |relationships|
    {
      |relationships|
    }

    /** After the stored node of one name alone has changed, and kept its name, the
        subgraph is valid and its value differs at that name only. */
    twostate lemma Updated(name: string)
      requires old(Valid()) && name in old(nodes)
      requires nodes == old(nodes) && relationships == old(relationships) && comments == old(comments)
      requires nodes[name].name == name
      requires forall n :: n in nodes && n != name ==> unchanged(nodes[n])
      ensures Valid()
      ensures Doc() == old(Doc()).(nodes := old(Doc()).nodes[name := Entry(nodes[name].serial, nodes[name].Snapshot())])
    {
      forall n | n in nodes && n != name
        ensures nodes[n].Snapshot() == old(nodes[n].Snapshot())
      {
      }
    }

    /** mergeNode: merges node into the node stored under its name, or stores it; returns
        the stored node. e is the model of node: its serial and name, and its fields
        unless node is already stored (then they do not matter). The nodes of the
        relationships rs that prs models go on being modelled by it. */
    method MergeNode(node: AbstractNode, ghost e: Entry, ghost source: NodeSource,
                     ghost rs: seq<AbstractRelationship>, ghost prs: seq<PathRel>) returns (stored: AbstractNode)
      requires Valid() && source.Valid() && MadeBy(source) && node in source.made
      requires Modelled(node, e)
      requires Pending(rs, prs)
      modifies this, StoredAt(node.name)
      ensures Valid() && MadeBy(source)
      ensures Doc() == MergeDoc(old(Doc()), e)
      ensures nodes == old(nodes)[e.node.name := stored]
      ensures e.node.name in old(nodes) ==> stored == old(nodes[e.node.name])
      ensures e.node.name !in old(nodes) ==> stored == node
      ensures nodes.Values <= old(nodes.Values) + {node}
      ensures Pending(rs, prs)
    {
      var name := node.name;
      if name in nodes {
        stored := nodes[name];
        MergeStored(node, stored, e, source);
        assert Stores(stored);
      } else {
        Store(node, e, source);
        stored := node;
      }
      KeepsStored(old(nodes), name, stored);
      forall k | 0 <= k < |rs|
        ensures Modelled(rs[k].start, prs[k].start) && Modelled(rs[k].end, prs[k].end)
      {
        var a, b := rs[k].start, rs[k].end;
        if old(Stores(a)) {
          assert nodes[old(a.name)] == a;
        } else if a != node {
          assert a !in old(StoredAt(name));
        }
        if old(Stores(b)) {
          assert nodes[old(b.name)] == b;
        } else if b != node {
          assert b !in old(StoredAt(name));
        }
      }
    }

    /** The second branch of mergeNode: a node of a new name is stored. */
    method Store(node: AbstractNode, ghost e: Entry, ghost source: NodeSource)
      requires Valid() && MadeBy(source) && node in source.made
      requires node.serial == e.serial && node.name == e.node.name && node.Snapshot() == e.node
      requires node.name !in nodes
      modifies this
      ensures Valid() && MadeBy(source)
      ensures nodes == old(nodes)[e.node.name := node]
      ensures Doc() == MergeDoc(old(Doc()), e)
    {
      nodes := nodes[node.name := node];
      assert Doc().nodes == MergeDoc(old(Doc()), e).nodes;
    }

    /** The first branch of mergeNode: node merged into the stored node of its name. */
    method MergeStored(node: AbstractNode, stored: AbstractNode, ghost e: Entry, ghost source: NodeSource)
      requires Valid() && source.Valid() && MadeBy(source) && node in source.made
      requires Modelled(node, e)
      requires node.name in nodes && nodes[node.name] == stored
      modifies stored
      ensures Valid()
      ensures Doc() == MergeDoc(old(Doc()), e)
    {
      ghost var cur := Doc().nodes[e.node.name];
      ghost var k :| 0 <= k < |source.made| && source.made[k] == stored;
      ghost var j :| 0 <= j < |source.made| && source.made[j] == node;
      assert stored == node <==> cur.serial == e.serial;
      MergeSelf(cur.node);
      stored.MergeNode(node);
      assert stored.Snapshot() == (if stored == node then cur.node else NodesMerged(cur.node, e.node));
      Updated(e.node.name);
    }

    /** setHook on the node that mergeNode returned, the one stored under name: the
        subgraph's value changes at that name only, as HookSet says. */
    method SetHookOn(name: string, hook: string, keys: seq<string>, optional: bool)
      requires Valid() && name in nodes
      modifies nodes[name]
      ensures Valid() && nodes == old(nodes)
      ensures Doc() == old(Doc()).(nodes := old(Doc()).nodes[name :=
        Entry(old(nodes[name].serial), HookSet(old(nodes[name].Snapshot()), hook, Some(keys), optional))])
    {
      nodes[name].SetHook(hook, Some(keys), optional);
      Updated(name);
    }

    /** addComment. */
    method AddComment(comment: string)
      modifies this
      ensures nodes == old(nodes) && relationships == old(relationships)
      ensures comments == old(comments) + [comment]
    {
      comments := comments + [comment];
    }
  

    /** addRelationship: merges both nodes of rel, then adds the relationship between
        their names. es and ee model the two nodes as in MergeNode; the nodes of the
        relationships rs that prs models go on being modelled by it. */
    method AddRelationship(rel: AbstractRelationship, ghost es: Entry, ghost ee: Entry, ghost source: NodeSource,
                           ghost rs: seq<AbstractRelationship>, ghost prs: seq<PathRel>)
      requires Valid() && source.Valid() && MadeBy(source) && rel.start in source.made && rel.end in source.made
      requires Modelled(rel.start, es) && Modelled(rel.end, ee) && rel.start != rel.end
      requires Pending(rs, prs)
      modifies this, rel.start, StoredAt(rel.start.name), StoredAt(rel.end.name)
      ensures Valid() && MadeBy(source)
      ensures Doc() == AddRel(old(Doc()), PathRel(es, rel.relType, rel.properties, ee))
      ensures nodes.Values <= old(nodes.Values) + {rel.start, rel.end}
      ensures Pending(rs, prs)
    {
      ghost var d0 := Doc();
      var startName, endName := rel.start.name, rel.end.name;
      MergeEnds(rel, es, ee, source, rs, prs);
      AppendRel(Rel(startName, rel.relType, rel.properties, endName), rs, prs);
      AddRelUnfolds(d0, PathRel(es, rel.relType, rel.properties, ee));
    }

    /** The first steps of addRelationship: both nodes are merged. */
    method MergeEnds(rel: AbstractRelationship, ghost es: Entry, ghost ee: Entry, ghost source: NodeSource,
                     ghost rs: seq<AbstractRelationship>, ghost prs: seq<PathRel>)
      requires Valid() && source.Valid() && MadeBy(source) && rel.start in source.made && rel.end in source.made
      requires Modelled(rel.start, es) && Modelled(rel.end, ee) && rel.start != rel.end
      requires Pending(rs, prs)
      modifies this, rel.start, StoredAt(rel.start.name), StoredAt(rel.end.name)
      ensures Valid() && MadeBy(source)
      ensures Doc() == MergeDoc(MergeDoc(old(Doc()), es), ee)
      ensures nodes.Values <= old(nodes.Values) + {rel.start, rel.end}
      ensures Pending(rs, prs)
    {
      ghost var pr := PathRel(es, rel.relType, rel.properties, ee);
      PendingMore(rs, prs, rel, pr);
      var s := MergeNode(rel.start, es, source, rs + [rel], prs + [pr]);
      PendingLess(rs, prs, rel, pr);
      var e := MergeNode(rel.end, ee, source, rs, prs);
    }

    /** The last step of addRelationship: the relationship is appended. */
    method AppendRel(rel: Rel, ghost rs: seq<AbstractRelationship>, ghost prs: seq<PathRel>)
      requires Valid()
      requires Pending(rs, prs)
      modifies this
      ensures Valid() && nodes == old(nodes) && comments == old(comments)
      ensures relationships == old(relationships) + [rel]
      ensures Doc() == old(Doc()).(rels := old(Doc()).rels + [rel])
      ensures Pending(rs, prs)
    {
      relationships := relationships + [rel];
    }
  }
}
