/**
 * AbstractNode: a node definition before it is resolved against a store.
 * NodeVal is the value of its fields; the functions on NodeVal say what each
 * method of the class does to them.
 */
module Nodes {
  import opened Wrappers
  import opened Values

  /** The fields of an AbstractNode. A null label set is the empty one; a null
      property map is the empty one with hasProps false. */
  datatype NodeVal = NodeVal(
    name: string,
    named: bool,
    labels: set<string>,
    props: Props,
    hasProps: bool,
    hookLabel: Option<string>,
    hookKeys: Option<seq<string>>,
    hookOptional: bool)

  /** The constructor: a null name is replaced by a generated one and the node is
      unnamed; a given name is kept and the node is named. */
  function NewNode(name: Option<string>, labels: Option<set<string>>, props: Option<Props>, generated: string): (n: NodeVal)
    ensures n.named <==> name.Some?
    ensures name.Some? ==> n.name == name.value
    ensures name.None? ==> n.name == generated
    ensures n.labels == labels.GetOr({}) && n.props == props.GetOr(map[])
    ensures n.hasProps <==> props.Some?
    ensures n.hookLabel.None? && n.hookKeys.None? && !n.hookOptional
  {
    NodeVal(if name.Some? then name.value else generated, name.Some?, labels.GetOr({}), props.GetOr(map[]), props.Some?, None, None, false)
  }

  /** mergeLabels: the union with the given labels; null changes nothing. */
  function LabelsMerged(n: NodeVal, labels: Option<set<string>>): (r: NodeVal)
    ensures labels.None? ==> r == n
    ensures labels.Some? ==> r.labels == n.labels + labels.value
    ensures r == n.(labels := r.labels)
  {
    if labels.None? then n else n.(labels := n.labels + labels.value)
  }

  /** mergeProperties: every key of the given map takes its value there, every other
      key keeps its value, and the map is no longer null; null changes nothing. */
  function PropertiesMerged(n: NodeVal, props: Option<Props>): (r: NodeVal)
    ensures props.None? ==> r == n
    ensures props.Some? ==> r.props.Keys == n.props.Keys + props.value.Keys
    ensures props.Some? ==> forall k :: k in props.value ==> r.props[k] == props.value[k]
    ensures forall k :: k in n.props && (props.None? || k !in props.value) ==> k in r.props && r.props[k] == n.props[k]
    ensures r.hasProps <==> n.hasProps || props.Some?
    ensures r == n.(props := r.props, hasProps := r.hasProps)
  {
    if props.None? then n else n.(props := Overwrite(n.props, props.value), hasProps := true)
  }

  /** The property map after the hook keys absent from it have been put with null. */
  function SeedNulls(props: Props, keys: seq<string>): (r: Props)
    ensures r.Keys == props.Keys + (set k | k in keys)
    ensures forall k :: k in props ==> r[k] == props[k]
    ensures forall k :: k in keys && k !in props ==> r[k] == Null
  {
    props + map k | k in keys && k !in props :: Null
  }

  /** Seeding one more key puts it with null exactly when it is not there yet. */
  lemma SeedNullsStep(props: Props, keys: seq<string>, k: string)
    ensures SeedNulls(props, keys + [k]) ==
      (var s := SeedNulls(props, keys); if k in s then s else s[k := Null])
  {
    var s := SeedNulls(props, keys);
    var t := SeedNulls(props, keys + [k]);
    var u := if k in s then s else s[k := Null];
    assert t.Keys == u.Keys;
    forall x | x in t
      ensures t[x] == u[x]
    {
      if x in props {
      } else {
        assert x in keys + [k];
      }
    }
  }

  /** setHook: the hook label joins the labels and becomes the hook label, the
      optional flag is set; with keys, the property map is no longer null, every key
      absent from it is put with null, keys already there keep their values, and
      the keys are recorded in order. */
  function HookSet(n: NodeVal, hook: string, keys: Option<seq<string>>, optional: bool): (r: NodeVal)
    ensures hook in r.labels && r.labels == n.labels + {hook}
    ensures r.hookLabel == Some(hook) && r.hookOptional == optional
    ensures keys.Some? ==> r.hookKeys == keys && forall k :: k in keys.value ==> k in r.props
    ensures keys.Some? ==> forall k :: k in keys.value && k !in n.props ==> r.props[k] == Null
    ensures forall k :: k in n.props ==> k in r.props && r.props[k] == n.props[k]
    ensures keys.Some? ==> r.props.Keys == n.props.Keys + (set k | k in keys.value) && r.hasProps
    ensures keys.None? ==> r.props == n.props && r.hasProps == n.hasProps && r.hookKeys == n.hookKeys
    ensures r.name == n.name && r.named == n.named
  {
    var withLabel := n.(labels := n.labels + {hook}, hookLabel := Some(hook), hookOptional := optional);
    if keys.None? then withLabel
    else withLabel.(props := SeedNulls(n.props, keys.value), hasProps := true, hookKeys := keys)
  }

  /** The property map of a node as getProperties returns it: null, or the map. */
  function PropsField(n: NodeVal): (p: Option<Props>)
    ensures p.None? <==> !n.hasProps
    ensures p.Some? ==> p.value == n.props
  {
    if n.hasProps then Some(n.props) else None
  }

  /** mergeNode: takes the other node's name (never null after construction), unions
      its labels and overwrites with its properties unless its map is null; the named
      flag and the hook stay. */
  function NodesMerged(n: NodeVal, other: NodeVal): (r: NodeVal)
    ensures r.name == other.name && r.named == n.named
    ensures r.labels == n.labels + other.labels
    ensures other.hasProps ==> r.props.Keys == n.props.Keys + other.props.Keys
    ensures other.hasProps ==> forall k :: k in other.props ==> r.props[k] == other.props[k]
    ensures forall k :: k in n.props && (!other.hasProps || k !in other.props) ==> k in r.props && r.props[k] == n.props[k]
    ensures !other.hasProps ==> r.props == n.props
    ensures r.hasProps <==> n.hasProps || other.hasProps
    ensures r.hookLabel == n.hookLabel && r.hookKeys == n.hookKeys && r.hookOptional == n.hookOptional
  {
    PropertiesMerged(LabelsMerged(n.(name := other.name), Some(other.labels)), PropsField(other))
  }

  /** Merging a node into itself changes nothing. */
  lemma MergeSelf(n: NodeVal)
    ensures NodesMerged(n, n) == n
  {
    assert Overwrite(n.props, n.props) == n.props;
  }

  /** A null property map reads as the empty one: the fields of every AbstractNode
      satisfy this. */
  predicate NullIsEmpty(n: NodeVal) {
    !n.hasProps ==> n.props == map[]
  }

  class AbstractNode {
    var name: string
    var named: bool
    var labels: set<string>
    /** None while the property map is null. */
    var properties: Option<Props>
    var hookLabel: Option<string>
    var hookKeys: Option<seq<string>>
    var hookIsOptional: bool
    /** Which node read this object is: identifies the object in the model of the
        document (see Document). */
    ghost const serial: nat

    function Snapshot(): (n: NodeVal)
      reads this
      ensures NullIsEmpty(n) && PropsField(n) == properties
    {
      NodeVal(name, named, labels, properties.GetOr(map[]), properties.Some?, hookLabel, hookKeys, hookIsOptional)
    }

    /** AbstractNode(name, labels, properties); `generated` is the fresh name used when
        name is null (UUID.randomUUID in the source). */
    constructor (name: Option<string>, labels: Option<set<string>>, properties: Option<Props>, generated: string, ghost serial: nat)
      ensures Snapshot() == NewNode(name, labels, properties, generated)
      ensures this.serial == serial
    {
      if name.None? {
        this.name := generated;
        this.named := false;
      } else {
        this.name := name.value;
        this.named := true;
      }
      this.labels := {};
      this.properties := None;
      this.hookLabel := None;
      this.hookKeys := None;
      this.hookIsOptional := false;
      this.serial := serial;
      new;
      MergeLabels(labels);
      MergeProperties(properties);
    }

    method MergeNode(node: AbstractNode)
      modifies this
      ensures Snapshot() == NodesMerged(old(Snapshot()), old(node.Snapshot()))
    {
      var otherName, otherLabels, otherProps := node.name, node.labels, node.properties;
      name := otherName;
      MergeLabels(Some(otherLabels));
      MergeProperties(otherProps);
    }

    method MergeLabels(labels: Option<set<string>>)
      modifies this
      ensures Snapshot() == LabelsMerged(old(Snapshot()), labels)
    {
      if labels.Some? {
        this.labels := this.labels + labels.value;
      }
    }

    method MergeProperties(properties: Option<Props>)
      modifies this
      ensures Snapshot() == PropertiesMerged(old(Snapshot()), properties)
    {
      if properties.Some? {
        if this.properties.None? {
          this.properties := Some(properties.value);
        } else {
          this.properties := Some(Overwrite(this.properties.value, properties.value));
        }
      }
    }

    method SetHook(hook: string, keys: Option<seq<string>>, hookIsOptional: bool)
      modifies this
      ensures Snapshot() == HookSet(old(Snapshot()), hook, keys, hookIsOptional)
    {
      hide SeedNulls;
      labels := labels + {hook};
      hookLabel := Some(hook);
      this.hookIsOptional := hookIsOptional;
      if keys.Some? {
        if properties.None? {
          properties := Some(map[]);
        }
        var ks := keys.value;
        ghost var labelled := Snapshot();
        var base := properties.value;
        var props := base;
        var i := 0;
        while i < |ks|
          invariant 0 <= i <= |ks|
          invariant properties == Some(base)
          invariant props == SeedNulls(base, ks[..i])
          invariant Snapshot() == labelled
        {
          SeedNullsStep(base, ks[..i], ks[i]);
          if ks[i] !in props {
            props := props[ks[i] := Null];
          }
          assert ks[..i + 1] == ks[..i] + [ks[i]];
          i := i + 1;
        }
        assert ks[..i] == ks;
        properties := Some(props);
        hookKeys := keys;
      }
    }
  }
}
