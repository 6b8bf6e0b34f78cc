/**
 * The graph database NeoLoader writes to, reduced to the calls it makes: nodes
 * with labels and properties, typed relationships with properties, creating
 * both, and looking nodes up by label and property value. Node and relationship
 * ids are positions in two sequences.
 */
module GraphStore {
  import opened Values

  /** A stored node: its labels and its properties. */
  datatype StoreNode = StoreNode(labels: set<string>, props: Props)

  /** A stored relationship: its two nodes, its type and its properties. */
  datatype StoreRel = StoreRel(start: nat, relType: string, end: nat, props: Props)

  /** A property container: a Node or a Relationship. */
  datatype Entity = NodeRef(id: nat) | RelRef(id: nat)

  const EmptyNode: StoreNode := StoreNode({}, map[])

  /** No property of the map is null: the store never holds a null value. */
  predicate NoNulls(p: Props) {
    forall k :: k in p ==> p[k] != Null
  }

  /** Whether findNodesByLabelAndProperty(label, key, value) yields the node: it
      carries the label, and the property has that value, where a null value asks
      for the property to be absent. */
  predicate Matches(n: StoreNode, lab: string, key: string, value: Value) {
    lab in n.labels && (if value == Null then key !in n.props else key in n.props && n.props[key] == value)
  }

  /** The ids of the nodes that match. */
  function FindIn(nodes: seq<StoreNode>, lab: string, key: string, value: Value): (found: set<nat>)
    ensures forall id :: id in found ==> id < |nodes| && Matches(nodes[id], lab, key, value)
    ensures forall id :: 0 <= id < |nodes| && Matches(nodes[id], lab, key, value) ==> id in found
  {
    set id: nat | id < |nodes| && Matches(nodes[id], lab, key, value)
  }

  class Store {
    var nodes: seq<StoreNode>
    var rels: seq<StoreRel>

    /** No stored value is null and every relationship joins two stored nodes. */
    ghost predicate Valid()
      reads this
    {
      (forall i :: 0 <= i < |nodes| ==> NoNulls(nodes[i].props)) &&
      (forall i :: 0 <= i < |rels| ==> rels[i].start < |nodes| && rels[i].end < |nodes| && NoNulls(rels[i].props))
    }

    constructor ()
      ensures Valid() && nodes == [] && rels == []
    {
      nodes := [];
      rels := [];
    }

    predicate Exists(e: Entity)
      reads this
    {
      match e
      case NodeRef(id) => id < |nodes|
      case RelRef(id) => id < |rels|
    }

    function PropsOf(e: Entity): Props
      reads this
      requires Exists(e)
    {
      match e
      case NodeRef(id) => nodes[id].props
      case RelRef(id) => rels[id].props
    }

    /** Compared with the state (nodes0, rels0), nothing but the properties of e
        differs. */
    ghost predicate SameBut(e: Entity, nodes0: seq<StoreNode>, rels0: seq<StoreRel>)
      reads this
    {
      |nodes| == |nodes0| && |rels| == |rels0| &&
      (forall i :: 0 <= i < |nodes| && e != NodeRef(i) ==> nodes[i] == nodes0[i]) &&
      (forall i :: 0 <= i < |rels| && e != RelRef(i) ==> rels[i] == rels0[i]) &&
      (e.NodeRef? && e.id < |nodes| ==> nodes[e.id].labels == nodes0[e.id].labels) &&
      (e.RelRef? && e.id < |rels| ==> rels[e.id].(props := map[]) == rels0[e.id].(props := map[]))
    }

    /** findNodesByLabelAndProperty: the ids of the nodes that match. */
    function FindNodesByLabelAndProperty(lab: string, key: string, value: Value): set<nat>
      reads this
    {
      FindIn(nodes, lab, key, value)
    }

    /** createNode: a new node with no label and no property. */
    method CreateNode() returns (id: nat)
      requires Valid()
      modifies this
      ensures Valid()
      ensures id == |old(nodes)| && nodes == old(nodes) + [EmptyNode] && rels == old(rels)
    {
      id := |nodes|;
      nodes := nodes + [EmptyNode];
    }

    /** Node.addLabel. */
    method AddLabel(id: nat, lab: string)
      requires Valid() && id < |nodes|
      modifies this
      ensures Valid()
      ensures nodes == old(nodes)[id := old(nodes[id]).(labels := old(nodes[id].labels) + {lab})]
      ensures rels == old(rels)
    {
      nodes := nodes[id := nodes[id].(labels := nodes[id].labels + {lab})];
    }

    /** PropertyContainer.setProperty: the value, never null, is put under key. */
    method SetProperty(e: Entity, key: string, value: Value)
      requires Valid() && Exists(e) && value != Null
      modifies this
      ensures Valid() && Exists(e)
      ensures SameBut(e, old(nodes), old(rels))
      ensures PropsOf(e) == old(PropsOf(e))[key := value]
    {
      match e
      case NodeRef(id) =>
        nodes := nodes[id := nodes[id].(props := nodes[id].props[key := value])];
      case RelRef(id) =>
        rels := rels[id := rels[id].(props := rels[id].props[key := value])];
    }

    /** Node.createRelationshipTo: a new relationship of the type, with no property. */
    method CreateRelationshipTo(start: nat, end: nat, relType: string) returns (id: nat)
      requires Valid() && start < |nodes| && end < |nodes|
      modifies this
      ensures Valid()
      ensures id == |old(rels)| && rels == old(rels) + [StoreRel(start, relType, end, map[])]
      ensures nodes == old(nodes)
    {
      id := |rels|;
      rels := rels + [StoreRel(start, relType, end, map[])];
    }
  }
}
