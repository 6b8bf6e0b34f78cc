/**
 * What readSubgraph does to the subgraph once a statement is read. At the end of a
 * path statement, every relationship gathered takes the trailing properties and is
 * added to the subgraph, in order; a path without relationships merges its node
 * instead (Document.Attach). A hook declaration merges its node and sets the hook
 * on the node stored (Document.HookDoc). Each method is proved to do to the
 * subgraph's value what the function named says.
 */
module Build {
  import opened Wrappers
  import opened Values
  import opened Nodes
  import opened Document
  import opened Graph

  /** What does not change about the relationship objects rs while they are added:
      their nodes are among made and are two different objects, and they have the
      types of the entries prs. */
  ghost predicate Links(rs: seq<AbstractRelationship>, prs: seq<PathRel>, made: seq<AbstractNode>) {
    |rs| == |prs| &&
    forall k :: 0 <= k < |rs| ==>
      rs[k].start in made && rs[k].end in made && rs[k].start != rs[k].end && rs[k].relType == prs[k].relType
  }

  /** Once the trailing properties are merged into it, each relationship rs[k] has the
      properties of WithProps(prs[k], props). (The same object may occur twice in rs;
      merging the same map twice is merging it once.) */
  ghost predicate Awaits(rs: seq<AbstractRelationship>, prs: seq<PathRel>, props: Option<Props>)
    reads set k | 0 <= k < |rs| :: rs[k]
  {
    |rs| == |prs| &&
    forall k :: 0 <= k < |rs| ==>
      (if props.None? then rs[k].properties else Overwrite(rs[k].properties, props.value)) == WithProps(prs[k], props).props
  }

  /** Overwriting twice with the same map is overwriting once. */
  lemma OverwriteTwice(base: Props, incoming: Props)
    ensures Overwrite(Overwrite(base, incoming), incoming) == Overwrite(base, incoming)
  {
  }

  /** The `for (rel : relationships)` loop of readSubgraph: each relationship takes
      the trailing properties (rel.mergeProperties) and is added
      (subgraph.addRelationship), in order. */
  method AddRelationships(g: Subgraph, rs: seq<AbstractRelationship>, ghost prs: seq<PathRel>,
                          props: Option<Props>, ghost source: NodeSource)
    requires g.Valid() && source.Valid() && g.MadeBy(source)
    requires Links(rs, prs, source.made) && g.Pending(rs, prs) && Awaits(rs, prs, props)
    modifies g, g.nodes.Values, Ends(rs), set k | 0 <= k < |rs| :: rs[k]
    ensures g.Valid() && g.MadeBy(source)
    ensures g.Doc() == AddRels(old(g.Doc()), prs, props)
    ensures g.nodes.Values <= old(g.nodes.Values) + Ends(rs)
  {
    ghost var target := AddRels(g.Doc(), prs, props);
    var i := 0;
    while i < |rs|
      invariant Adding(g, rs, prs, props, source, i, target, old(g.nodes.Values))
    {
      AddStep(g, rs, prs, props, source, i, target, old(g.nodes.Values));
      i := i + 1;
    }
    assert prs[i..] == [];
  }

  /** The state of the loop before round i: the relationships before rs[i] are added,
      so that adding the rest gives target, and the rest are as in AddRelationships'
      precondition. */
  ghost predicate Adding(g: Subgraph, rs: seq<AbstractRelationship>, prs: seq<PathRel>, props: Option<Props>,
                         source: NodeSource, i: nat, target: Doc, values: set<AbstractNode>)
    reads g, g.nodes.Values, Ends(rs), set k | 0 <= k < |rs| :: rs[k], source
  {
    i <= |rs| && |rs| == |prs| && source.Valid() &&
    g.Valid() && g.MadeBy(source) &&
    AddRels(g.Doc(), prs[i..], props) == target &&
    Links(rs[i..], prs[i..], source.made) && g.Pending(rs[i..], prs[i..]) && Awaits(rs[i..], prs[i..], props) &&
    g.nodes.Values <= values + Ends(rs)
  }

  /** Round i of the loop. */
  method AddStep(g: Subgraph, rs: seq<AbstractRelationship>, ghost prs: seq<PathRel>, props: Option<Props>,
                 ghost source: NodeSource, i: nat, ghost target: Doc, ghost values: set<AbstractNode>)
    requires i < |rs| && Adding(g, rs, prs, props, source, i, target, values)
    modifies g, g.nodes.Values, Ends(rs), set k | 0 <= k < |rs| :: rs[k]
    ensures Adding(g, rs, prs, props, source, i + 1, target, values)
  {
    ghost var d := g.Doc();
    assert AddRels(d, prs[i..], props) == AddRels(AddRel(d, WithProps(prs[i], props)), prs[i + 1..], props) by {
      assert prs[i..][0] == prs[i] && prs[i..][1..] == prs[i + 1..];
    }
    assert rs[i..][0] == rs[i];
    AddOne(g, rs[i..], prs[i..], props, source);
    assert rs[i..][1..] == rs[i + 1..] && prs[i..][1..] == prs[i + 1..];
    ShiftLinks(rs[i..], prs[i..], source.made);
  }

  /** One round of the loop: the first of the relationships rs left takes the
      properties and is added. */
  method AddOne(g: Subgraph, rs: seq<AbstractRelationship>, ghost prs: seq<PathRel>,
                props: Option<Props>, ghost source: NodeSource)
    requires |rs| > 0
    requires g.Valid() && source.Valid() && g.MadeBy(source)
    requires Links(rs, prs, source.made) && g.Pending(rs, prs) && Awaits(rs, prs, props)
    modifies g, g.nodes.Values, rs[0], rs[0].start, rs[0].end
    ensures g.Valid() && g.MadeBy(source)
    ensures g.Doc() == AddRel(old(g.Doc()), WithProps(prs[0], props))
    ensures g.Pending(rs[1..], prs[1..]) && Awaits(rs[1..], prs[1..], props)
    ensures g.nodes.Values <= old(g.nodes.Values) + {rs[0].start, rs[0].end}
  {
    ghost var d0 := g.Doc();
    ShiftPending(g, rs, prs);
    var rel := rs[0];
    TakeProps(rs, prs, props);
    assert g.Doc() == d0;
    ghost var pr := PathRel(prs[0].start, rel.relType, rel.properties, prs[0].end);
    assert pr == WithProps(prs[0], props);
    AddTaken(g, rel, pr, source, rs[1..], prs[1..]);
  }

  /** subgraph.addRelationship(rel), for the relationship pr models. */
  method AddTaken(g: Subgraph, rel: AbstractRelationship, ghost pr: PathRel, ghost source: NodeSource,
                  ghost rs: seq<AbstractRelationship>, ghost prs: seq<PathRel>)
    requires g.Valid() && source.Valid() && g.MadeBy(source) && rel.start in source.made && rel.end in source.made
    requires g.Modelled(rel.start, pr.start) && g.Modelled(rel.end, pr.end) && rel.start != rel.end
    requires pr == PathRel(pr.start, rel.relType, rel.properties, pr.end)
    requires g.Pending(rs, prs)
    modifies g, g.nodes.Values, rel.start, rel.end
    ensures g.Valid() && g.MadeBy(source)
    ensures g.Doc() == AddRel(old(g.Doc()), pr)
    ensures g.Pending(rs, prs)
    ensures g.nodes.Values <= old(g.nodes.Values) + {rel.start, rel.end}
  {
    g.AddRelationship(rel, pr.start, pr.end, source, rs, prs);
  }

  /** rel.mergeProperties(properties) on the first relationship of rs: it gets the
      properties WithProps says, and the rest still await theirs. */
  method TakeProps(rs: seq<AbstractRelationship>, ghost prs: seq<PathRel>, props: Option<Props>)
    requires |rs| > 0 && Awaits(rs, prs, props)
    modifies rs[0]
    ensures rs[0].properties == WithProps(prs[0], props).props
    ensures Awaits(rs[1..], prs[1..], props)
  {
    label before:
    rs[0].MergeProperties(props);
    forall k | 0 <= k < |rs| - 1
      ensures (if props.None? then rs[1..][k].properties else Overwrite(rs[1..][k].properties, props.value)) == WithProps(prs[1..][k], props).props
    {
      assert rs[1..][k] == rs[k + 1] && prs[1..][k] == prs[k + 1];
      if props.Some? {
        OverwriteTwice(old@before(rs[k + 1].properties), props.value);
      }
    }
    if props.Some? {
      OverwriteTwice(old@before(rs[0].properties), props.value);
    }
  }

  /** Links of a list holds of its tail. */
  lemma ShiftLinks(rs: seq<AbstractRelationship>, prs: seq<PathRel>, made: seq<AbstractNode>)
    requires |rs| > 0 && Links(rs, prs, made)
    ensures Links(rs[1..], prs[1..], made)
  {
    assert forall k :: 0 <= k < |rs| - 1 ==> rs[1..][k] == rs[k + 1] && prs[1..][k] == prs[k + 1];
  }

  /** Pending of a list holds of its tail. */
  lemma ShiftPending(g: Subgraph, rs: seq<AbstractRelationship>, prs: seq<PathRel>)
    requires |rs| > 0 && g.Pending(rs, prs)
    ensures g.Pending(rs[1..], prs[1..])
  {
    assert forall k :: 0 <= k < |rs| - 1 ==> rs[1..][k] == rs[k + 1] && prs[1..][k] == prs[k + 1];
  }

  /** The other branch: with no relationships, the path's (only) node takes the
      trailing properties (node.mergeProperties) and is merged (subgraph.mergeNode). */
  method MergeLast(g: Subgraph, node: AbstractNode, ghost e: Entry, props: Option<Props>, ghost source: NodeSource)
    requires g.Valid() && source.Valid() && g.MadeBy(source) && node in source.made
    requires node.serial == e.serial && node.Snapshot() == e.node && node !in g.nodes.Values
    modifies g, g.nodes.Values, node
    ensures g.Valid() && g.MadeBy(source)
    ensures g.Doc() == Attach(old(g.Doc()), [], e, props)
    ensures g.nodes.Values <= old(g.nodes.Values) + {node}
  {
    node.MergeProperties(props);
    var _ := g.MergeNode(node, Entry(e.serial, PropertiesMerged(e.node, props)), source, [], []);
  }

  /** `subgraph.mergeNode(node).setHook(label, keys, hookIsOptional)`: node is merged,
      and the hook is set on the node mergeNode returns, the one stored under its name. */
  method MergeHook(g: Subgraph, node: AbstractNode, ghost e: Entry, hook: string, keys: seq<string>,
                   optional: bool, ghost source: NodeSource)
    requires g.Valid() && source.Valid() && g.MadeBy(source) && node in source.made
    requires node.serial == e.serial && node.Snapshot() == e.node && node !in g.nodes.Values
    modifies g, g.nodes.Values, node
    ensures g.Valid() && g.MadeBy(source)
    ensures g.Doc() == HookDoc(old(g.Doc()), e, hook, keys, optional)
    ensures g.nodes.Values <= old(g.nodes.Values) + {node}
  {
    ghost var d0 := g.Doc();
    var stored := g.MergeNode(node, e, source, [], []);
    ghost var d1 := g.Doc();
    assert d1.nodes[e.node.name] == Entry(stored.serial, stored.Snapshot());
    g.SetHookOn(node.name, hook, keys, optional);
  }
}
