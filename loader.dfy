/**
 * NeoLoader: loads a subgraph into the graph database. Every node of the
 * subgraph is resolved to a store node (one found by its unique label, key and
 * value, or a new one) which is given the node's labels and non-null
 * properties; only after all nodes, every relationship is created, in order,
 * between the store nodes of its two names.
 */
module Loader {
  import opened Wrappers
  import opened Values
  import opened Nodes
  import opened Document
  import opened Graph
  import opened GraphStore

  /** What loadNode asks of a unique node: isUnique, getUniqueLabel and getUniqueKey. */
  datatype Unique = Unique(lab: string, key: string)

  /** Why a load stops, in both cases with a NullPointerException: the unique node
      of that name has a null property map, which loadNode asks for a key; or the
      name of a node of relationship relIndex is not in the name-to-node map,
      nodes.get yields null and createRelationshipTo throws. */
  datatype LoadError = NullProperties(name: string) | NullPointer(relIndex: nat)

  /** The properties addProperties leaves in a container that had p: the non-null
      entries of props are written over p, a null value is never written, and a
      null map writes nothing. */
  function Written(p: Props, props: Option<Props>): (r: Props)
    ensures props.None? ==> r == p
    ensures p.Keys <= r.Keys
    ensures props.Some? ==> forall k :: k in props.value && props.value[k] != Null ==> k in r && r[k] == props.value[k]
    ensures forall k :: k in p && (props.None? || k !in props.value || props.value[k] == Null) ==> r[k] == p[k]
    ensures forall k :: k in r && k !in p ==> props.Some? && k in props.value && props.value[k] != Null
    ensures NoNulls(p) ==> NoNulls(r)
  {
    if props.None? then p else Overwrite(p, NonNull(props.value))
  }

  /** The value a unique node is looked up by: its value of key, or null without one. */
  function UniqueValue(props: Props, key: string): Value {
    if key in props then props[key] else Null
  }

  /** A store node after loadNode has added the labels and written the properties of n. */
  function Loaded(s: StoreNode, n: NodeVal): StoreNode {
    StoreNode(s.labels + n.labels, Written(s.props, PropsField(n)))
  }

  /** loadNode throws for the node of name: it is unique and its property map is null. */
  predicate Unloadable(vals: map<string, NodeVal>, uniqueness: map<string, Unique>, name: string) {
    name in vals && name in uniqueness && !vals[name].hasProps
  }

  /** Some node of the subgraph makes loadNode throw. */
  ghost predicate NullLookup(vals: map<string, NodeVal>, uniqueness: map<string, Unique>) {
    exists name :: Unloadable(vals, uniqueness, name)
  }

  /** loadNode throws for the node of name exactly when it has a lookup and a null
      property map. */
  lemma UnloadableAt(vals: map<string, NodeVal>, uniqueness: map<string, Unique>, name: string, unique: Option<Unique>)
    requires name in vals && unique == if name in uniqueness then Some(uniqueness[name]) else None
    ensures Unloadable(vals, uniqueness, name) <==> unique.Some? && !vals[name].hasProps
  {
  }

  /** A node that makes loadNode throw is a witness that some node does. */
  lemma SomeUnloadable(vals: map<string, NodeVal>, uniqueness: map<string, Unique>, name: string)
    requires Unloadable(vals, uniqueness, name)
    ensures NullLookup(vals, uniqueness)
  {
  }

  /** When every node of the subgraph was loaded, none made loadNode throw. */
  lemma NoneUnloadable(vals: map<string, NodeVal>, uniqueness: map<string, Unique>, nodes: map<string, nat>)
    requires vals.Keys <= nodes.Keys
    requires forall n :: n in nodes ==> !Unloadable(vals, uniqueness, n)
    ensures !NullLookup(vals, uniqueness)
  {
  }

  /** Loading a node that carries its unique label, into a store node the lookup
      found or into a new one, leaves a store node that the same lookup finds. */
  lemma LoadedIsFound(s: StoreNode, n: NodeVal, u: Unique)
    requires u.lab in n.labels
    requires s == EmptyNode || Matches(s, u.lab, u.key, UniqueValue(n.props, u.key))
    requires NullIsEmpty(n)
    ensures Matches(Loaded(s, n), u.lab, u.key, UniqueValue(n.props, u.key))
  {
    var v := UniqueValue(n.props, u.key);
    if v == Null {
      assert u.key !in s.props;
      assert u.key !in NonNull(n.props);
    }
  }

  /** Store nodes only gain: none is removed, none loses a label or a property key. */
  ghost predicate Grown(nodes0: seq<StoreNode>, nodes1: seq<StoreNode>) {
    |nodes0| <= |nodes1| &&
    forall i :: 0 <= i < |nodes0| ==> nodes0[i].labels <= nodes1[i].labels && nodes0[i].props.Keys <= nodes1[i].props.Keys
  }

  /** The fields of every node of a name map. */
  ghost function Fields(m: map<string, AbstractNode>): (vals: map<string, NodeVal>)
    reads m.Values
    ensures vals.Keys == m.Keys
  {
    map n | n in m :: m[n].Snapshot()
  }

  lemma FieldsAt(m: map<string, AbstractNode>, name: string)
    requires name in m
    ensures Fields(m)[name] == m[name].Snapshot()
  {
  }

  /** The store node of id after loadNode has loaded n into the store nodes db,
      giving db1: with the lookup empty (or no lookup), a new node; otherwise a
      node the lookup found. */
  ghost predicate LoadedAt(db: seq<StoreNode>, db1: seq<StoreNode>, n: NodeVal, unique: Option<Unique>, id: nat) {
    var found := if unique.None? then {} else FindIn(db, unique.value.lab, unique.value.key, UniqueValue(n.props, unique.value.key));
    if found == {} then id == |db| && db1 == db + [Loaded(EmptyNode, n)]
    else id in found && db1 == db[id := Loaded(db[id], n)]
  }

  /** What load has done once the nodes of nodes.Keys are loaded into db, which
      was db0: every one has a store node, a new one when it is not unique (and
      no two such share one); the store node carries its labels and the keys of
      its non-null properties; and no store node has lost anything. */
  ghost predicate Resolved(vals: map<string, NodeVal>, uniqueness: map<string, Unique>, nodes: map<string, nat>,
                           db0: seq<StoreNode>, db: seq<StoreNode>) {
    nodes.Keys <= vals.Keys && Grown(db0, db) &&
    (forall n :: n in nodes ==> nodes[n] < |db|) &&
    (forall n :: n in nodes && n !in uniqueness ==> |db0| <= nodes[n]) &&
    (forall n, m :: n in nodes && m in nodes && n !in uniqueness && m !in uniqueness && n != m ==> nodes[n] != nodes[m]) &&
    (forall n :: n in nodes ==> vals[n].labels <= db[nodes[n]].labels) &&
    (forall n, k :: n in nodes && k in vals[n].props && vals[n].props[k] != Null ==> k in db[nodes[n]].props)
  }

  /** The entries of nodes whose node is named: what load returns. */
  function Named(vals: map<string, NodeVal>, nodes: map<string, nat>): map<string, nat> {
    map n | n in nodes && n in vals && vals[n].named :: nodes[n]
  }

  /** Recording one more node adds it to the named ones exactly when it is named. */
  lemma NamedStep(vals: map<string, NodeVal>, nodes: map<string, nat>, name: string, id: nat)
    requires name in vals && name !in nodes
    ensures Named(vals, nodes[name := id]) == if vals[name].named then Named(vals, nodes)[name := id] else Named(vals, nodes)
  {
  }

  /** Recording the node of one more of the remaining names. */
  lemma KeysStep(names: set<string>, remaining: set<string>, nodes: map<string, nat>, name: string, id: nat)
    requires remaining <= names && nodes.Keys == names - remaining && name in remaining
    ensures remaining - {name} <= names && nodes[name := id].Keys == names - (remaining - {name})
  {
  }

  /** Before any node is loaded, none is named and nothing is resolved. */
  lemma ResolvedStart(vals: map<string, NodeVal>, uniqueness: map<string, Unique>, db: seq<StoreNode>)
    ensures Named(vals, map[]) == map[]
    ensures Resolved(vals, uniqueness, map[], db, db)
  {
  }

  /** What loadNode leaves at id: a store node, a new one when there is no lookup,
      carrying the node's labels and the keys of its non-null properties, in a
      store that has only grown. */
  lemma LoadedAtFacts(db: seq<StoreNode>, db1: seq<StoreNode>, v: NodeVal, unique: Option<Unique>, id: nat)
    requires LoadedAt(db, db1, v, unique, id) && NullIsEmpty(v)
    ensures Grown(db, db1) && id < |db1| && (unique.None? ==> id == |db|)
    ensures v.labels <= db1[id].labels
    ensures forall k :: k in v.props && v.props[k] != Null ==> k in db1[id].props
  {
    hide FindIn, Matches;
    var found := if unique.None? then {} else FindIn(db, unique.value.lab, unique.value.key, UniqueValue(v.props, unique.value.key));
    if found == {} {
      assert id == |db| && db1 == db + [Loaded(EmptyNode, v)];
    } else {
      assert id in found && db1 == db[id := Loaded(db[id], v)];
    }
  }

  /** Grown is transitive. */
  lemma GrownTrans(db0: seq<StoreNode>, db: seq<StoreNode>, db1: seq<StoreNode>)
    requires Grown(db0, db) && Grown(db, db1)
    ensures Grown(db0, db1)
  {
  }

  /** Recording id for name, what each recorded name's store node carries. */
  lemma CarriedStep(vals: map<string, NodeVal>, uniqueness: map<string, Unique>, nodes: map<string, nat>,
                    db0: seq<StoreNode>, db: seq<StoreNode>, db1: seq<StoreNode>, name: string, id: nat)
    requires Resolved(vals, uniqueness, nodes, db0, db) && Grown(db, db1)
    requires name in vals && name !in nodes && id < |db1|
    requires name !in uniqueness ==> id == |db|
    requires vals[name].labels <= db1[id].labels
    requires forall k :: k in vals[name].props && vals[name].props[k] != Null ==> k in db1[id].props
    ensures var nodes1 := nodes[name := id];
      forall n | n in nodes1 :: nodes1[n] < |db1| && vals[n].labels <= db1[nodes1[n]].labels &&
        (n !in uniqueness ==> |db0| <= nodes1[n]) &&
        forall k :: k in vals[n].props && vals[n].props[k] != Null ==> k in db1[nodes1[n]].props
  {
    var nodes1 := nodes[name := id];
    forall n | n in nodes1
      ensures nodes1[n] < |db1| && vals[n].labels <= db1[nodes1[n]].labels
      ensures forall k :: k in vals[n].props && vals[n].props[k] != Null ==> k in db1[nodes1[n]].props
      ensures n !in uniqueness ==> |db0| <= nodes1[n]
    {
      if n != name {
        assert nodes1[n] == nodes[n] < |db|;
      }
    }
  }

  /** Recording a new store node for name keeps the non-unique names apart. */
  lemma DistinctStep(vals: map<string, NodeVal>, uniqueness: map<string, Unique>, nodes: map<string, nat>,
                     db0: seq<StoreNode>, db: seq<StoreNode>, name: string, id: nat)
    requires Resolved(vals, uniqueness, nodes, db0, db)
    requires name !in nodes && (name !in uniqueness ==> id == |db|)
    ensures var nodes1 := nodes[name := id];
      forall n, m | n in nodes1 && m in nodes1 && n !in uniqueness && m !in uniqueness && n != m :: nodes1[n] != nodes1[m]
  {
    var nodes1 := nodes[name := id];
    forall n, m | n in nodes1 && m in nodes1 && n !in uniqueness && m !in uniqueness && n != m
      ensures nodes1[n] != nodes1[m]
    {
      if n != name && m != name {
        assert nodes1[n] == nodes[n] && nodes1[m] == nodes[m];
      } else if n == name {
        assert nodes1[m] == nodes[m] < |db| == id;
      } else {
        assert nodes1[n] == nodes[n] < |db| == id;
      }
    }
  }

  /** Loading one more node keeps Resolved. */
  lemma ResolvedStep(vals: map<string, NodeVal>, uniqueness: map<string, Unique>, nodes: map<string, nat>,
                     db0: seq<StoreNode>, db: seq<StoreNode>, db1: seq<StoreNode>, name: string,
                     unique: Option<Unique>, id: nat)
    requires Resolved(vals, uniqueness, nodes, db0, db)
    requires name in vals && name !in nodes
    requires unique == if name in uniqueness then Some(uniqueness[name]) else None
    requires LoadedAt(db, db1, vals[name], unique, id) && NullIsEmpty(vals[name])
    ensures Resolved(vals, uniqueness, nodes[name := id], db0, db1)
  {
    LoadedAtFacts(db, db1, vals[name], unique, id);
    hide LoadedAt, FindIn, Matches;
    CarriedStep(vals, uniqueness, nodes, db0, db, db1, name, id);
    DistinctStep(vals, uniqueness, nodes, db0, db, name, id);
    GrownTrans(db0, db, db1);
  }

  /** Every resolved name has a store node. */
  lemma ResolvedBounded(vals: map<string, NodeVal>, uniqueness: map<string, Unique>, nodes: map<string, nat>,
                        db0: seq<StoreNode>, db: seq<StoreNode>)
    requires Resolved(vals, uniqueness, nodes, db0, db)
    ensures forall n :: n in nodes ==> nodes[n] < |db|
  {
  }

  /** After the properties of node id alone have changed, the store nodes are the
      earlier ones with node id's properties replaced. */
  lemma PropsSetAt(db: Store, nodes0: seq<StoreNode>, id: nat)
    requires id < |nodes0| && db.SameBut(NodeRef(id), nodes0, db.rels)
    ensures db.nodes == nodes0[id := nodes0[id].(props := db.PropsOf(NodeRef(id)))]
  {
  }

  class NeoLoader {
    const database: Store

    constructor (database: Store)
      ensures this.database == database
    {
      this.database := database;
    }

    /** load: every node of the subgraph is loaded and recorded under its name, the
        named ones also in the result; then every relationship is loaded, in order.
        A unique node with a null property map stops the load among the nodes, before
        any relationship. ids is the name-to-node map of the nodes loaded. */
    method Load(subgraph: Subgraph, uniqueness: map<string, Unique>)
      returns (r: Result<map<string, nat>, LoadError>, ghost ids: map<string, nat>)
      requires subgraph.Valid() && database.Valid()
      modifies database
      ensures database.Valid()
      ensures ids.Keys <= subgraph.nodes.Keys
      ensures Resolved(Fields(subgraph.nodes), uniqueness, ids, old(database.nodes), database.nodes)
      ensures NullLookup(Fields(subgraph.nodes), uniqueness) ==>
        r.Err? && r.error.NullProperties? && Unloadable(Fields(subgraph.nodes), uniqueness, r.error.name) &&
        database.rels == old(database.rels)
      ensures !NullLookup(Fields(subgraph.nodes), uniqueness) ==> ids.Keys == subgraph.nodes.Keys
      ensures r.Ok? <==> (!NullLookup(Fields(subgraph.nodes), uniqueness) &&
        forall k :: 0 <= k < |subgraph.relationships| ==>
          subgraph.relationships[k].start in subgraph.nodes && subgraph.relationships[k].end in subgraph.nodes)
      ensures r.Ok? ==> r.value == Named(Fields(subgraph.nodes), ids)
      ensures |old(database.rels)| <= |database.rels| && database.rels[..|old(database.rels)|] == old(database.rels)
      ensures r.Ok? ==> |database.rels| == |old(database.rels)| + |subgraph.relationships|
      ensures r.Ok? ==> forall k :: 0 <= k < |subgraph.relationships| ==>
        var rel := subgraph.relationships[k];
        rel.start in ids && rel.end in ids &&
        database.rels[|old(database.rels)| + k] == StoreRel(ids[rel.start], rel.relType, ids[rel.end], NonNull(rel.props))
    {
      hide Resolved, Named, NullLookup, Unloadable;
      var loaded, nodes, namedNodes := LoadNodes(subgraph, uniqueness);
      ids := nodes;
      if loaded.Err? {
        return Err(loaded.error), ids;
      }
      ResolvedBounded(Fields(subgraph.nodes), uniqueness, nodes, old(database.nodes), database.nodes);
      var rels := LoadRelationships(subgraph.relationships, nodes);
      r := if rels.Ok? then Ok(namedNodes) else Err(rels.error);
    }

    /** The node loop of load: each node of the subgraph, in no particular order,
        is loaded and recorded under its name, and also in namedNodes if it is named;
        the first unique node with a null property map stops the loop. */
    method LoadNodes(subgraph: Subgraph, uniqueness: map<string, Unique>)
      returns (r: Result<(), LoadError>, nodes: map<string, nat>, namedNodes: map<string, nat>)
      requires subgraph.Valid() && database.Valid()
      modifies database
      ensures database.Valid() && database.rels == old(database.rels)
      ensures r.Err? <==> NullLookup(Fields(subgraph.nodes), uniqueness)
      ensures r.Err? ==> r.error.NullProperties? && Unloadable(Fields(subgraph.nodes), uniqueness, r.error.name)
      ensures nodes.Keys <= subgraph.nodes.Keys && (r.Ok? ==> nodes.Keys == subgraph.nodes.Keys)
      ensures namedNodes == Named(Fields(subgraph.nodes), nodes)
      ensures Resolved(Fields(subgraph.nodes), uniqueness, nodes, old(database.nodes), database.nodes)
    {
      hide Resolved, Named, Fields, Store.Valid, NullLookup, Unloadable;
      ghost var vals := Fields(subgraph.nodes);
      nodes := map[];
      namedNodes := map[];
      ResolvedStart(vals, uniqueness, database.nodes);
      ghost var names := subgraph.nodes.Keys;
      var remaining := subgraph.nodes.Keys;
      while remaining != {}
        invariant database.Valid() && database.rels == old(database.rels)
        invariant remaining <= names && nodes.Keys == names - remaining
        invariant namedNodes == Named(vals, nodes)
        invariant Resolved(vals, uniqueness, nodes, old(database.nodes), database.nodes)
        invariant forall n :: n in nodes ==> !Unloadable(vals, uniqueness, n)
        decreases |remaining|
      {
        var name :| name in remaining;
        ghost var nodes0 := nodes;
        r, nodes, namedNodes := LoadEntry(subgraph, uniqueness, name, nodes, namedNodes, vals, old(database.nodes));
        if r.Err? {
          SomeUnloadable(vals, uniqueness, name);
          assert Fields(subgraph.nodes) == vals;
          return;
        }
        KeysStep(names, remaining, nodes0, name, nodes[name]);
        remaining := remaining - {name};
      }
      NoneUnloadable(vals, uniqueness, nodes);
      assert Fields(subgraph.nodes) == vals;
      r := Ok(());
    }

    /** One round of load's node loop: the node of name is loaded and recorded under
        its name, and among the named nodes if it is named. A unique node with a null
        property map throws, and nothing is loaded or recorded. */
    method LoadEntry(subgraph: Subgraph, uniqueness: map<string, Unique>, name: string,
                     nodes: map<string, nat>, namedNodes: map<string, nat>,
                     ghost vals: map<string, NodeVal>, ghost db0: seq<StoreNode>)
      returns (r: Result<(), LoadError>, nodes1: map<string, nat>, namedNodes1: map<string, nat>)
      requires subgraph.Valid() && database.Valid() && name in subgraph.nodes && name !in nodes
      requires vals == Fields(subgraph.nodes) && namedNodes == Named(vals, nodes)
      requires Resolved(vals, uniqueness, nodes, db0, database.nodes)
      modifies database
      ensures database.Valid() && database.rels == old(database.rels)
      ensures r.Err? <==> Unloadable(vals, uniqueness, name)
      ensures r.Err? ==> r == Err(NullProperties(name)) && database.nodes == old(database.nodes) &&
                         nodes1 == nodes && namedNodes1 == namedNodes
      ensures r.Ok? ==> name in nodes1 && nodes1 == nodes[name := nodes1[name]] &&
                        namedNodes1 == Named(vals, nodes1) &&
                        Resolved(vals, uniqueness, nodes1, db0, database.nodes)
    {
      hide Resolved, Named, LoadedAt, Fields, Store.Valid, Unloadable;
      nodes1, namedNodes1 := nodes, namedNodes;
      var abstractNode := subgraph.nodes[name];
      var unique := if name in uniqueness then Some(uniqueness[name]) else None;
      var key, named := abstractNode.name, abstractNode.named;
      FieldsAt(subgraph.nodes, name);
      UnloadableAt(vals, uniqueness, name, unique);
      assert key == name && named == vals[name].named;
      ghost var before, fields := database.nodes, abstractNode.Snapshot();
      var loaded := LoadNode(abstractNode, unique);
      if loaded.Err? {
        return Err(loaded.error), nodes1, namedNodes1;
      }
      var node := loaded.value;
      assert abstractNode.Snapshot() == fields;
      ResolvedStep(vals, uniqueness, nodes, db0, before, database.nodes, name, unique, node);
      NamedStep(vals, nodes, name, node);
      nodes1 := nodes[key := node];
      if named {
        namedNodes1 := namedNodes[key := node];
      }
      r := Ok(());
    }

    /** The relationship loop of load: each relationship, in order, is loaded
        between the nodes of its names; the first one with a name missing from
        nodes stops the load. */
    method LoadRelationships(rels: seq<Rel>, nodes: map<string, nat>) returns (r: Result<(), LoadError>)
      requires database.Valid() && forall n :: n in nodes ==> nodes[n] < |database.nodes|
      modifies database
      ensures database.Valid() && database.nodes == old(database.nodes)
      ensures r.Ok? <==> forall k :: 0 <= k < |rels| ==> rels[k].start in nodes && rels[k].end in nodes
      ensures |old(database.rels)| <= |database.rels| && database.rels[..|old(database.rels)|] == old(database.rels)
      ensures r.Ok? ==> |database.rels| == |old(database.rels)| + |rels|
      ensures r.Ok? ==> forall k :: 0 <= k < |rels| ==>
        rels[k].start in nodes && rels[k].end in nodes &&
        database.rels[|old(database.rels)| + k] == StoreRel(nodes[rels[k].start], rels[k].relType, nodes[rels[k].end], NonNull(rels[k].props))
    {
      var k := 0;
      while k < |rels|
        invariant k <= |rels|
        invariant database.Valid() && database.nodes == old(database.nodes)
        invariant |database.rels| == |old(database.rels)| + k
        invariant database.rels[..|old(database.rels)|] == old(database.rels)
        invariant forall j :: 0 <= j < k ==>
          rels[j].start in nodes && rels[j].end in nodes &&
          database.rels[|old(database.rels)| + j] == StoreRel(nodes[rels[j].start], rels[j].relType, nodes[rels[j].end], NonNull(rels[j].props))
      {
        var loaded := LoadRelationship(rels[k], nodes);
        if !loaded {
          return Err(NullPointer(k));
        }
        k := k + 1;
      }
      r := Ok(());
    }

    /** loadNode: a unique node takes a node the lookup by its label, key and value
        finds, if there is one; otherwise, and for every other node, a new node is
        created. The node's labels are added to it and its non-null properties
        written. A unique node whose property map is null throws before the store
        is touched. */
    method LoadNode(node: AbstractNode, unique: Option<Unique>) returns (r: Result<nat, LoadError>)
      requires database.Valid()
      modifies database
      ensures database.Valid() && database.rels == old(database.rels)
      ensures r.Err? <==> unique.Some? && node.properties.None?
      ensures r.Err? ==> r.error == NullProperties(node.name) && database.nodes == old(database.nodes)
      ensures r.Ok? ==> LoadedAt(old(database.nodes), database.nodes, node.Snapshot(), unique, r.value)
      ensures r.Ok? && unique.Some? && unique.value.lab in node.labels ==>
        Matches(database.nodes[r.value], unique.value.lab, unique.value.key, UniqueValue(node.Snapshot().props, unique.value.key))
    {
      hide Store.Valid, Store.SameBut, FindIn, Written, Matches;
      var found: Option<nat> := None;
      if unique.Some? {
        if node.properties.None? {
          return Err(NullProperties(node.name));
        }
        var uniqueValue := Null;
        if unique.value.key in node.properties.value {
          uniqueValue := node.properties.value[unique.value.key];
        }
        var candidates := database.FindNodesByLabelAndProperty(unique.value.lab, unique.value.key, uniqueValue);
        if candidates != {} {
          var first :| first in candidates;
          found := Some(first);
        }
      }
      ghost var v, before := node.Snapshot(), database.nodes;
      var id: nat;
      if found.None? {
        id := database.CreateNode();
      } else {
        id := found.value;
      }
      ghost var created := database.nodes;
      ghost var target := created[id];
      AddLabels(id, Some(node.labels));
      ghost var labelled := database.nodes;
      AddProperties(NodeRef(id), node.properties);
      PropsSetAt(database, labelled, id);
      assert database.nodes == created[id := Loaded(target, v)];
      if found.None? {
        assert created[id := Loaded(target, v)] == before + [Loaded(EmptyNode, v)];
      }
      if unique.Some? && unique.value.lab in node.labels {
        LoadedIsFound(target, v, unique.value);
      }
      r := Ok(id);
    }

    /** The plain branch of loadRelationship: a relationship of the type from the
        node of the start name to the node of the end name, with the relationship's
        non-null properties. A name without a node fails and creates nothing. */
    method LoadRelationship(rel: Rel, nodes: map<string, nat>) returns (ok: bool)
      requires database.Valid() && forall n :: n in nodes ==> nodes[n] < |database.nodes|
      modifies database
      ensures database.Valid() && database.nodes == old(database.nodes)
      ensures ok <==> rel.start in nodes && rel.end in nodes
      ensures ok ==> database.rels == old(database.rels) + [StoreRel(nodes[rel.start], rel.relType, nodes[rel.end], NonNull(rel.props))]
      ensures !ok ==> database.rels == old(database.rels)
    {
      if rel.start !in nodes || rel.end !in nodes {
        return false;
      }
      var startNode, endNode := nodes[rel.start], nodes[rel.end];
      var id := database.CreateRelationshipTo(startNode, endNode, rel.relType);
      AddProperties(RelRef(id), Some(rel.props));
      assert Overwrite(map[], NonNull(rel.props)) == NonNull(rel.props);
      assert database.rels[id].(props := map[]) == StoreRel(startNode, rel.relType, endNode, map[]);
      assert database.rels == old(database.rels) + [StoreRel(startNode, rel.relType, endNode, NonNull(rel.props))];
      ok := true;
    }

    /** addLabels: every label is added to the node; null adds none. */
    method AddLabels(node: nat, labels: Option<set<string>>)
      requires database.Valid() && node < |database.nodes|
      modifies database
      ensures database.Valid() && database.rels == old(database.rels)
      ensures database.nodes == old(database.nodes)[node := old(database.nodes[node]).(labels := old(database.nodes[node].labels) + labels.GetOr({}))]
    {
      if labels.None? {
        return;
      }
      ghost var nodes0, node0 := database.nodes, database.nodes[node];
      var rest := labels.value;
      while rest != {}
        invariant database.Valid() && database.rels == old(database.rels)
        invariant rest <= labels.value
        invariant |database.nodes| == |nodes0| && database.nodes[node] == node0.(labels := node0.labels + (labels.value - rest))
        invariant forall i :: 0 <= i < |nodes0| && i != node ==> database.nodes[i] == nodes0[i]
        decreases |rest|
      {
        var l :| l in rest;
        database.AddLabel(node, l);
        rest := rest - {l};
      }
      assert labels.value - rest == labels.value;
      assert database.nodes == nodes0[node := node0.(labels := node0.labels + labels.value)];
    }

    /** addProperties: every entry with a non-null value is set on the node or
        relationship; nothing else of the store changes, and null sets nothing. */
    method AddProperties(entity: Entity, properties: Option<Props>)
      requires database.Valid() && database.Exists(entity)
      modifies database
      ensures database.Valid() && database.Exists(entity)
      ensures database.SameBut(entity, old(database.nodes), old(database.rels))
      ensures database.PropsOf(entity) == Written(old(database.PropsOf(entity)), properties)
    {
      if properties.None? {
        return;
      }
      var props := properties.value;
      ghost var p0 := database.PropsOf(entity);
      var rest := props.Keys;
      assert Overwrite(p0, NonNull(props - rest)) == p0;
      while rest != {}
        invariant database.Valid() && database.Exists(entity)
        invariant rest <= props.Keys
        invariant database.SameBut(entity, old(database.nodes), old(database.rels))
        invariant database.PropsOf(entity) == Overwrite(p0, NonNull(props - rest))
        decreases |rest|
      {
        var key :| key in rest;
        WrittenStep(p0, props, rest, key);
        if props[key] != Null {
          database.SetProperty(entity, key, props[key]);
        }
        rest := rest - {key};
      }
      assert props - rest == props;
    }
  }

  /** Setting one more entry of props, if it is not null, is writing one more key. */
  lemma WrittenStep(p0: Props, props: Props, rest: set<string>, key: string)
    requires key in rest && rest <= props.Keys
    ensures Overwrite(p0, NonNull(props - (rest - {key}))) ==
      if props[key] != Null then Overwrite(p0, NonNull(props - rest))[key := props[key]]
      else Overwrite(p0, NonNull(props - rest))
  {
    var done, next := props - rest, props - (rest - {key});
    assert next == done[key := props[key]];
    if props[key] != Null {
      assert NonNull(next) == NonNull(done)[key := props[key]];
    } else {
      assert NonNull(next) == NonNull(done);
    }
  }
}
