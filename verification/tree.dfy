/**
 The option tree handed to the tree-select field: an ordered forest of
 nodes, each with a key and an ordered list of children.
 */
module Tree {

  /** One option. A node whose `children` property is missing is represented
      by an empty sequence: the expansion walk treats both the same way. */
  datatype Node = Node(key: string, children: seq<Node>)

  /** A node is internal when it has at least one child; otherwise it is a leaf. */
  predicate IsInternal(n: Node)
  {
    |n.children| > 0
  }

  /** Every node of the forest, at any depth: the roots and, recursively, the
      nodes below them. */
  function Subtrees(forest: seq<Node>): set<Node>
    decreases forest
  {
    if |forest| == 0 then {}
    else {forest[0]} + Subtrees(forest[0].children) + Subtrees(forest[1..])
  }

  /** The keys of the internal nodes of the forest, at any depth. */
  function InternalKeys(forest: seq<Node>): set<string>
  {
    set n | n in Subtrees(forest) && IsInternal(n) :: n.key
  }

  /** No two distinct nodes of the forest share a key. */
  ghost predicate KeysUnique(forest: seq<Node>)
  {
    forall a, b :: a in Subtrees(forest) && b in Subtrees(forest) && a.key == b.key ==> a == b
  }

  /** The forest's nodes are its roots together with the nodes of each root's subtree. */
  lemma {:induction false} SubtreesMembership(forest: seq<Node>, x: Node)
    ensures x in Subtrees(forest) <==>
            exists i :: 0 <= i < |forest| && (x == forest[i] || x in Subtrees(forest[i].children))
    decreases forest
  {
    if |forest| > 0 {
      SubtreesMembership(forest[1..], x);
      if x in Subtrees(forest[1..]) {
        var j :| 0 <= j < |forest[1..]| && (x == forest[1..][j] || x in Subtrees(forest[1..][j].children));
        assert forest[1..][j] == forest[j + 1];
      }
      forall i | 1 <= i < |forest| && (x == forest[i] || x in Subtrees(forest[i].children))
        ensures x in Subtrees(forest[1..])
      {
        assert forest[1..][i - 1] == forest[i];
      }
    }
  }

  /** Every root is a node of the forest. */
  lemma RootsInSubtrees(forest: seq<Node>)
    ensures forall i :: 0 <= i < |forest| ==> forest[i] in Subtrees(forest)
  {
    forall i | 0 <= i < |forest|
      ensures forest[i] in Subtrees(forest)
    {
      SubtreesMembership(forest, forest[i]);
    }
  }

  /** The forest's nodes are closed under taking children: whatever is
      reachable from a root, at any depth, is in `Subtrees`. */
  lemma {:induction false} SubtreesClosed(forest: seq<Node>, n: Node, c: Node)
    requires n in Subtrees(forest)
    requires c in n.children
    ensures c in Subtrees(forest)
    decreases forest
  {
    var k :| 0 <= k < |n.children| && n.children[k] == c;
    SubtreesMembership(n.children, c);
    if n == forest[0] {
    } else if n in Subtrees(forest[0].children) {
      SubtreesClosed(forest[0].children, n, c);
    } else {
      SubtreesClosed(forest[1..], n, c);
    }
  }

  /** The nodes of a concatenated forest are the nodes of its two parts. */
  lemma {:induction false} SubtreesAppend(f: seq<Node>, g: seq<Node>)
    ensures Subtrees(f + g) == Subtrees(f) + Subtrees(g)
    decreases f
  {
    if |f| == 0 {
      assert f + g == g;
    } else {
      assert (f + g)[0] == f[0];
      assert (f + g)[1..] == f[1..] + g;
      SubtreesAppend(f[1..], g);
    }
  }

  /** The nodes of a forest depend only on which roots it has, not on their
      order or repetition. */
  lemma SubtreesIgnoreOrder(f: seq<Node>, g: seq<Node>)
    requires forall n :: n in f <==> n in g
    ensures Subtrees(f) == Subtrees(g)
  {
    forall x | x in Subtrees(f)
      ensures x in Subtrees(g)
    {
      SubtreesMembership(f, x);
      SubtreesMembership(g, x);
      var i :| 0 <= i < |f| && (x == f[i] || x in Subtrees(f[i].children));
      assert f[i] in g;
    }
    forall x | x in Subtrees(g)
      ensures x in Subtrees(f)
    {
      SubtreesMembership(f, x);
      SubtreesMembership(g, x);
      var i :| 0 <= i < |g| && (x == g[i] || x in Subtrees(g[i].children));
      assert g[i] in f;
    }
  }

  /** The internal keys of a concatenated forest are those of its two parts. */
  lemma InternalKeysAppend(f: seq<Node>, g: seq<Node>)
    ensures InternalKeys(f + g) == InternalKeys(f) + InternalKeys(g)
  {
    SubtreesAppend(f, g);
  }

  /** The internal keys of a forest are those of its first root's subtree
      together with those of the remaining roots. */
  lemma InternalKeysCons(forest: seq<Node>)
    requires |forest| > 0
    ensures InternalKeys(forest) == InternalKeys([forest[0]]) + InternalKeys(forest[1..])
  {
    assert [forest[0]] + forest[1..] == forest;
    InternalKeysAppend([forest[0]], forest[1..]);
  }

  /** The internal keys of one root: its own key when it is internal, and the
      internal keys below it. */
  lemma InternalKeysOfNode(n: Node)
    ensures IsInternal(n) ==> InternalKeys([n]) == {n.key} + InternalKeys(n.children)
    ensures !IsInternal(n) ==> InternalKeys([n]) == {}
  {
    assert [n][1..] == [];
    assert Subtrees([n]) == {n} + Subtrees(n.children);
  }
}
