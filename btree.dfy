/**
 * The `BTree` class of `Btree/btree.js`: a root node that `insert` and
 * `delete` replace, the minimum degree `t`, and the searches and the
 * traversal that read the tree.  The height is a ghost field: every leaf
 * lies at that depth.
 */
module Btree {
  import opened BtreeNodes
  import opened BtreeInsert
  import opened BtreeDelete
  import KV = KeyValue

  /** Extending the walk of `_traverseNode` by one child and the key after
      it, or in a leaf by one key. */
  lemma {:induction false} LeadStep(acc: seq<int>, cs: seq<Node>, ks: seq<int>, i: nat)
    requires |cs| == |ks| + 1 && i < |ks|
    ensures acc + Lead(cs[..i + 1], ks[..i + 1]) == acc + Lead(cs[..i], ks[..i]) + Inorder(cs[i]) + [ks[i]]
  {
    assert cs[..i + 1] == cs[..i] + [cs[i]];
    assert ks[..i + 1][..i] == ks[..i];
    WeaveSnoc(cs[..i], cs[i], ks[..i]);
  }

  lemma {:induction false} KeyStep(acc: seq<int>, ks: seq<int>, i: nat)
    requires i < |ks|
    ensures acc + ks[..i + 1] == acc + ks[..i] + [ks[i]]
  {
    assert ks[..i + 1] == ks[..i] + [ks[i]];
  }

  /** The whole walk: every child but the last with its key, then the last. */
  lemma {:induction false} LeadAll(acc: seq<int>, cs: seq<Node>, ks: seq<int>)
    requires |cs| == |ks| + 1
    ensures acc + Weave(cs, ks) == acc + Lead(cs[..|ks|], ks[..|ks|]) + Inorder(cs[|ks|])
  {
    assert cs == cs[..|ks|] + [cs[|ks|]];
    assert ks[..|ks|] == ks;
    WeaveSnoc(cs[..|ks|], cs[|ks|], ks);
  }

  /** The scan of `_searchNode` and `_delete` stops at `Slot`. */
  lemma {:induction false} ScanIsSlot(ks: seq<int>, key: int, i: nat)
    requires i <= |ks| && (forall j :: 0 <= j < i ==> ks[j] < key) && (i < |ks| ==> !(key > ks[i]))
    ensures i == Slot(ks, key)
  {
  }

  /** A full root split below a new root: one key, one level more, the
      same in-order sequence, and the fill kept. */
  lemma {:induction false} RootSplit(root: Node, t: nat, h: nat)
    requires Shaped(root, h) && Bounded(root, t) && t >= 2 && |root.keys| == 2 * t - 1
    ensures var r := SplitChild(Node([], [root], false), 0, t);
      Shaped(r, h + 1) && Bounded(r, t) && Inorder(r) == Inorder(root) && |r.keys| == 1 && !r.leaf &&
      (MinFilled(root, t) ==> MinFilled(r, t))
  {
    var parent := Node([], [root], false);
    assert Shaped(parent, h + 1) && Bounded(parent, t);
    assert Inorder(parent) == Inorder(root) by {
      assert Weave([root], []) == Inorder(root);
    }
    assert MinFilled(root, t) ==> MinFilled(parent, t);
    SplitChildKeeps(parent, 0, t, h + 1);
  }

  /** What `_insertNonFull` promises, read as the sorted insertion. */
  lemma {:induction false} InsertedIs(before: seq<int>, after: seq<int>, key: int)
    requires Sorted(before) && Sorted(after) && multiset(after) == multiset(before) + multiset{key}
    ensures after == InsertSorted(before, key)
  {
    SortedUnique(after, InsertSorted(before, key));
  }

  /** The body of `insert` on the root node: a full root is split below a
      new root first, one level up; then the key goes in through
      `_insertNonFull`.  The tree stays well formed and its keys are the
      sorted insertion of `key`. */
  method InsertRoot(root: Node, key: int, t: nat, ghost h: nat) returns (r: Node, ghost h': nat)
    requires t >= 2 && Shaped(root, h) && Bounded(root, t) && Sorted(Inorder(root))
    ensures Shaped(r, h') && Bounded(r, t) && Sorted(Inorder(r))
    ensures Inorder(r) == InsertSorted(Inorder(root), key)
    ensures h' == h + if |root.keys| == 2 * t - 1 then 1 else 0
    ensures Occupied(root, t) ==> Occupied(r, t)
  {
    if |root.keys| == 2 * t - 1 {
      RootSplit(root, t, h);
      var newRoot := SplitChild(Node([], [root], false), 0, t);
      h' := h + 1;
      r := InsertNonFull(newRoot, key, t, h');
    } else {
      h' := h;
      r := InsertNonFull(root, key, t, h);
    }
    InsertedIs(Inorder(root), Inorder(r), key);
  }

  /** Deleting from the root, and the only child of a root left without
      keys: both are well-formed sorted trees holding nothing new, and from
      an occupied root exactly one occurrence of `key` is gone. */
  lemma {:induction false} RootDelete(root: Node, key: int, t: nat, h: nat)
    requires Shaped(root, h) && t >= 2 && Bounded(root, t) && Sorted(Inorder(root))
    ensures var o := BtreeDelete.Delete(root, key, t, h);
      (o.Ok? ==> Kept(root, o.node, t, h)) &&
      (o.Ok? && |o.node.keys| == 0 && !o.node.leaf ==>
        h >= 1 && Kept(root, o.node.children[0], t, h - 1) && Inorder(o.node.children[0]) == Inorder(o.node)) &&
      (Occupied(root, t) ==> o.Ok? && multiset(Inorder(o.node)) == multiset(Inorder(root)) - multiset{key})
  {
    DeleteKeeps(root, key, t, h);
    if Occupied(root, t) {
      DeleteExact(root, key, t, h);
    }
    var o := BtreeDelete.Delete(root, key, t, h);
    if o.Ok? && |o.node.keys| == 0 && !o.node.leaf {
      var r := o.node;
      assert Inorder(r) == Inorder(r.children[0]) by {
        assert Weave(r.children, []) == Inorder(r.children[0]);
      }
      assert Shaped(r.children[0], h - 1) && Bounded(r.children[0], t);
    }
  }

  class BTree {
    var root: Node
    const t: nat
    ghost var height: nat

    /** A well-formed tree: all leaves at depth `height`, no node above
        `2t - 1` keys, and the in-order sequence sorted. */
    ghost predicate Valid()
      reads this
    {
      t >= 2 && Shaped(root, height) && Bounded(root, t) && Sorted(Inorder(root))
    }

    /** Every node below the root holds at least `t - 1` keys, and an
        internal root holds one at least. */
    ghost predicate Filled()
      reads this
    {
      Occupied(root, t)
    }

    /** `new BTree(t)`: one empty leaf as the root. */
    constructor(t: nat)
      requires t >= 2
      ensures Valid() && Filled() && this.t == t && Inorder(root) == [] && height == 0
    {
      root := Node([], [], true);
      this.t := t;
      height := 0;
    }

    /** `search`: the node holding `key`, if any. */
    method Search(key: int) returns (r: KV.Option<Node>)
      requires Valid()
      ensures r.Some? <==> key in Inorder(root)
      ensures r.Some? ==> key in r.value.keys
    {
      r := SearchNode(root, key, height);
    }

    /** `_searchNode`: scan the keys up to the first not below `key`, answer
        the node when that key is `key`, and otherwise go down into the
        child there, or give up in a leaf. */
    method SearchNode(node: Node, key: int, ghost h: nat) returns (r: KV.Option<Node>)
      requires Shaped(node, h) && Sorted(Inorder(node))
      ensures r.Some? <==> key in Inorder(node)
      ensures r.Some? ==> key in r.value.keys
      decreases h
    {
      var i := 0;
      while i < |node.keys| && key > node.keys[i]
        invariant 0 <= i <= |node.keys|
        invariant forall j :: 0 <= j < i ==> node.keys[j] < key
      {
        i := i + 1;
      }
      ScanIsSlot(node.keys, key, i);
      if i < |node.keys| && key == node.keys[i] {
        KeysInInorder(node, i);
        return KV.Some(node);
      }
      if node.leaf {
        LeafAbsent(node.keys, key);
        return KV.None;
      }
      SlotChild(node, key);
      Descend(node, i, h);
      r := SearchNode(node.children[i], key, h - 1);
    }

    /** `traverse`: the keys in order. */
    method Traverse() returns (r: seq<int>)
      requires Valid()
      ensures r == Inorder(root) && Sorted(r)
    {
      r := TraverseNode(root, [], height);
    }

    /** `_traverseNode`: append the subtree's keys in order to `acc`. */
    method TraverseNode(node: Node, acc: seq<int>, ghost h: nat) returns (result: seq<int>)
      requires Shaped(node, h)
      ensures result == acc + Inorder(node)
      decreases h
    {
      result := acc;
      var i := 0;
      while i < |node.keys|
        invariant 0 <= i <= |node.keys|
        invariant node.leaf ==> result == acc + node.keys[..i]
        invariant !node.leaf ==> result == acc + Lead(node.children[..i], node.keys[..i])
      {
        if !node.leaf {
          LeadStep(acc, node.children, node.keys, i);
          result := TraverseNode(node.children[i], result, h - 1);
        } else {
          KeyStep(acc, node.keys, i);
        }
        result := result + [node.keys[i]];
        i := i + 1;
      }
      if !node.leaf {
        LeadAll(acc, node.children, node.keys);
        result := TraverseNode(node.children[i], result, h - 1);
      } else {
        assert node.keys[..i] == node.keys;
      }
    }

    /** `insert`: a full root is split below a new root first; then the key
        goes in through `_insertNonFull`. */
    method Insert(key: int)
      requires Valid()
      modifies this
      ensures Valid()
      ensures Inorder(root) == InsertSorted(old(Inorder(root)), key)
      ensures height == old(height) + if |old(root).keys| == 2 * t - 1 then 1 else 0
      ensures old(Filled()) ==> Filled()
    {
      root, height := InsertRoot(root, key, t, height);
    }

    /** `delete`: remove `key` from the tree, then replace an internal root
        left without keys by its only child.  A fault of the source leaves
        the tree as it was and is returned.  An absent key changes nothing,
        whatever the fill of the tree. */
    method Delete(key: int) returns (fault: KV.Option<Fault>)
      requires Valid()
      modifies this
      ensures Valid()
      ensures Within(Inorder(root), old(Inorder(root)))
      ensures var o := BtreeDelete.Delete(old(root), key, t, old(height));
        (fault.Some? <==> o.Failed?) &&
        (o.Failed? ==> fault.value == o.fault && root == old(root) && height == old(height)) &&
        (o.Ok? ==>
          if |o.node.keys| == 0 && !o.node.leaf then
            |o.node.children| == 1 && root == o.node.children[0] && height == old(height) - 1
          else root == o.node && height == old(height))
      ensures old(Filled()) ==> fault.None? && multiset(Inorder(root)) == multiset(old(Inorder(root))) - multiset{key}
      ensures key !in old(Inorder(root)) ==> Inorder(root) == old(Inorder(root))
    {
      ghost var before := Inorder(root);
      RootDelete(root, key, t, height);
      if key !in before {
        DeleteAbsent(root, key, t, height);
      }
      var outcome := BtreeDelete.Delete(root, key, t, height);
      match outcome {
        case Failed(f) =>
          fault := KV.Some(f);
        case Ok(r) =>
          fault := KV.None;
          if |r.keys| == 0 && !r.leaf {
            root := r.children[0];
            height := height - 1;
          } else {
            root := r;
          }
      }
    }
  }
}
