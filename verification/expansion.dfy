/**
 The expand-all planner of the tree-select field: a walk over the option
 forest that marks every internal node as expanded.
 */
module Expansion {
  import opened Tree

  /** Expanded-keys state: node key to "rendered expanded". */
  type ExpansionMap = map<string, bool>

  /** The map that marks exactly `keys`, each as expanded. */
  function AllTrue(keys: set<string>): (m: ExpansionMap)
    ensures m.Keys == keys
    ensures forall k :: k in m ==> m[k]
  {
    map k | k in keys :: true
  }

  /** The one key a plain JavaScript object does not store as its own entry:
      assigning `true` to `__proto__` reaches the prototype setter, which
      ignores a value that is not an object. */
  const ProtoKey: string := "__proto__"

  /** `acc[key] = true` on the object that backs the map: the key gains the
      value `true` unless it is the one an object drops, and every other
      entry keeps its value. */
  function MarkExpanded(acc: ExpansionMap, key: string): (r: ExpansionMap)
    ensures r.Keys == acc.Keys + ({key} - {ProtoKey})
    ensures key != ProtoKey ==> r[key]
    ensures forall k :: k in acc && k != key ==> r[k] == acc[k]
    ensures key == ProtoKey ==> r == acc
  {
    if key == ProtoKey then acc else acc[key := true]
  }

  /** The keys the walk can write: the forest's internal keys, except the
      one an object assignment drops. */
  function PlannedKeys(forest: seq<Node>): set<string>
  {
    InternalKeys(forest) - {ProtoKey}
  }

  /** Visits one node with the accumulator `acc`: an internal node writes its
      key as `true` and then visits each child in order; a leaf writes nothing
      and is not descended into. Only ever inserts. */
  function ExpandNode(node: Node, acc: ExpansionMap): (r: ExpansionMap)
    ensures acc.Keys <= r.Keys
    ensures forall k :: k in r ==> r[k] || (k in acc && r[k] == acc[k])
    ensures IsInternal(node) && node.key != ProtoKey ==> node.key in r && r[node.key]
    decreases node
  {
    if IsInternal(node) then ExpandEach(node.children, MarkExpanded(acc, node.key)) else acc
  }

  /** Visits `nodes` in order, threading the accumulator through each visit. */
  function ExpandEach(nodes: seq<Node>, acc: ExpansionMap): (r: ExpansionMap)
    ensures acc.Keys <= r.Keys
    ensures forall k :: k in r ==> r[k] || (k in acc && r[k] == acc[k])
    decreases nodes
  {
    if |nodes| == 0 then acc else ExpandEach(nodes[1..], ExpandNode(nodes[0], acc))
  }

  /** The expand-all plan: start from an empty map and visit every root.
      Its keys are the forest's internal keys (bar the one an object cannot
      store), each mapped to `true`. */
  function ExpandAll(forest: seq<Node>): (r: ExpansionMap)
    ensures r.Keys == PlannedKeys(forest)
    ensures forall k :: k in r ==> r[k]
  {
    ExpandEachExact(forest, map[]);
    assert map[] + AllTrue(PlannedKeys(forest)) == AllTrue(PlannedKeys(forest));
    ExpandEach(forest, map[])
  }

  /** Visiting one node adds exactly the internal keys of its subtree, each as
      `true`, and leaves every other entry of the accumulator as it was. */
  lemma {:induction false} ExpandNodeExact(node: Node, acc: ExpansionMap)
    ensures ExpandNode(node, acc) == acc + AllTrue(PlannedKeys([node]))
    decreases node
  {
    InternalKeysOfNode(node);
    if IsInternal(node) {
      var acc' := MarkExpanded(acc, node.key);
      ExpandEachExact(node.children, acc');
      assert acc' + AllTrue(PlannedKeys(node.children))
          == acc + AllTrue(PlannedKeys([node]));
    } else {
      assert acc + AllTrue({}) == acc;
    }
  }

  /** Visiting a sequence of nodes adds exactly the internal keys of all of
      their subtrees, each as `true`, and leaves every other entry as it was. */
  lemma {:induction false} ExpandEachExact(nodes: seq<Node>, acc: ExpansionMap)
    ensures ExpandEach(nodes, acc) == acc + AllTrue(PlannedKeys(nodes))
    decreases nodes
  {
    if |nodes| == 0 {
      assert PlannedKeys(nodes) == {};
      assert acc + AllTrue({}) == acc;
    } else {
      var mid := ExpandNode(nodes[0], acc);
      ExpandNodeExact(nodes[0], acc);
      ExpandEachExact(nodes[1..], mid);
      PlannedKeysCons(nodes);
      OverlayAllTrue(acc, PlannedKeys([nodes[0]]), PlannedKeys(nodes[1..]));
    }
  }

  /** The writable keys of a forest are those of its first root's subtree and
      those of the remaining roots. */
  lemma PlannedKeysCons(nodes: seq<Node>)
    requires |nodes| > 0
    ensures PlannedKeys(nodes) == PlannedKeys([nodes[0]]) + PlannedKeys(nodes[1..])
  {
    InternalKeysCons(nodes);
  }

  /** Overlaying two all-true maps in turn marks the union of their keys. */
  lemma OverlayAllTrue(acc: ExpansionMap, a: set<string>, b: set<string>)
    ensures (acc + AllTrue(a)) + AllTrue(b) == acc + AllTrue(a + b)
  {
  }

  /** The plan is the all-`true` map over the forest's internal keys, at
      any depth, bar the one an object cannot store. */
  lemma ExpandAllExact(forest: seq<Node>)
    ensures ExpandAll(forest) == AllTrue(InternalKeys(forest) - {ProtoKey})
  {
  }

  /** A key is in the plan if and only if some node of the forest carrying
      that key has a non-empty list of children, and the key is one an object
      stores as its own entry. */
  lemma ExpandedIffInternal(forest: seq<Node>, k: string)
    ensures k in ExpandAll(forest) <==>
            k != ProtoKey && exists n :: n in Subtrees(forest) && IsInternal(n) && n.key == k
  {
    ExpandAllExact(forest);
  }

  /** An internal root is expanded. */
  lemma InternalRootExpanded(forest: seq<Node>, i: int)
    requires 0 <= i < |forest| && IsInternal(forest[i])
    ensures forest[i].key != ProtoKey ==> forest[i].key in ExpandAll(forest) && ExpandAll(forest)[forest[i].key]
    ensures forest[i].key == ProtoKey ==> forest[i].key !in ExpandAll(forest)
  {
    RootsInSubtrees(forest);
    ExpandAllExact(forest);
  }

  /** An internal child of any node of the forest is expanded, at any depth. */
  lemma InternalExpandedAtAnyDepth(forest: seq<Node>, parent: Node, c: Node)
    requires parent in Subtrees(forest)
    requires c in parent.children
    requires IsInternal(c)
    ensures c.key != ProtoKey ==> c.key in ExpandAll(forest) && ExpandAll(forest)[c.key]
    ensures c.key == ProtoKey ==> c.key !in ExpandAll(forest)
  {
    SubtreesClosed(forest, parent, c);
    ExpandAllExact(forest);
  }

  /** When keys are unique, a leaf's key never appears in the plan. */
  lemma LeafNeverExpanded(forest: seq<Node>, leaf: Node)
    requires KeysUnique(forest)
    requires leaf in Subtrees(forest)
    requires !IsInternal(leaf)
    ensures leaf.key !in ExpandAll(forest)
  {
    ExpandAllExact(forest);
  }

  /** The plan does not depend on what the accumulator held before: visiting
      a forest from any starting map overlays the forest's plan on it. */
  lemma ExpandEachOverlaysPlan(forest: seq<Node>, acc: ExpansionMap)
    ensures ExpandEach(forest, acc) == acc + ExpandAll(forest)
  {
    ExpandEachExact(forest, acc);
    ExpandAllExact(forest);
  }

  /** A corollary of `ExpandEachOverlaysPlan`: running the walk again over
      its own result changes nothing. */
  lemma ExpandAllIdempotent(forest: seq<Node>)
    ensures ExpandEach(forest, ExpandAll(forest)) == ExpandAll(forest)
  {
    ExpandEachOverlaysPlan(forest, ExpandAll(forest));
    var p := ExpandAll(forest);
    assert p + p == p;
  }

  /** The plan of a concatenated forest is the union of the plans of its parts. */
  lemma ExpandAllUnion(f: seq<Node>, g: seq<Node>)
    ensures ExpandAll(f + g) == ExpandAll(f) + ExpandAll(g)
  {
    ExpandAllExact(f);
    ExpandAllExact(g);
    ExpandAllExact(f + g);
    InternalKeysAppend(f, g);
    OverlayAllTrue(map[], PlannedKeys(f), PlannedKeys(g));
    assert map[] + AllTrue(PlannedKeys(f)) == AllTrue(PlannedKeys(f));
  }

  /** The plan of a forest is the plan of its first root, computed on its own
      from an empty map, joined with the plan of the remaining roots. */
  lemma ExpandAllPerRoot(f: seq<Node>)
    requires |f| > 0
    ensures ExpandAll(f) == ExpandNode(f[0], map[]) + ExpandAll(f[1..])
  {
    ExpandNodeExact(f[0], map[]);
    assert [f[0]] + f[1..] == f;
    ExpandAllUnion([f[0]], f[1..]);
    ExpandAllExact([f[0]]);
    assert map[] + AllTrue(PlannedKeys([f[0]])) == AllTrue(PlannedKeys([f[0]]));
  }

  /** The plan depends only on which roots the forest has, not on their order
      or repetition. */
  lemma ExpandAllIgnoresRootOrder(f: seq<Node>, g: seq<Node>)
    requires forall n :: n in f <==> n in g
    ensures ExpandAll(f) == ExpandAll(g)
  {
    SubtreesIgnoreOrder(f, g);
    ExpandAllExact(f);
    ExpandAllExact(g);
  }

  /** The two-root example: root "1" has two leaf children and root "2" is a
      leaf, so only "1" is expanded. */
  lemma ExampleForestPlan()
    ensures ExpandAll([Node("1", [Node("1-1", []), Node("1-2", [])]), Node("2", [])]) == map["1" := true]
  {
    var f := [Node("1", [Node("1-1", []), Node("1-2", [])]), Node("2", [])];
    ExpandAllPerRoot(f);
    assert f[1..] == [Node("2", [])];
    assert ExpandAll(f[1..]) == map[];
    assert ExpandNode(f[0], map[]) == map["1" := true];
  }
}
