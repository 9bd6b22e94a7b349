/**
 * Deletion from the B-tree: `_delete`, `_deleteInternalNode`,
 * `_getPredecessor`, `_deleteFromSubtree`, `_fillChild`, `_borrowFromPrev`,
 * `_borrowFromNext` and `_merge` of `Btree/btree.js`, as functions from a
 * node to the node that replaces it.
 */
module BtreeDelete {
  import opened BtreeNodes
  import opened BtreeInsert
  import KV = KeyValue

  /** Where the source goes wrong instead of finishing: it dereferences
      `children[-1]` (a `TypeError`), or it copies the last key of an empty
      leaf (`undefined`) into the tree. */
  datatype Fault = UndefinedChild | UndefinedKey

  datatype Outcome = Ok(node: Node) | Failed(fault: Fault)

  /** Every element of `a` occurs in `b`. */
  predicate Within(a: seq<int>, b: seq<int>)
  {
    forall x :: x in a ==> x in b
  }

  /** `_getPredecessor`: the last key of the rightmost leaf below `c`, if
      that leaf has one. */
  function Predecessor(c: Node, ghost h: nat): KV.Option<int>
    requires Shaped(c, h)
    decreases h
  {
    if c.leaf then
      if c.keys == [] then KV.None else KV.Some(c.keys[|c.keys| - 1])
    else Predecessor(c.children[|c.children| - 1], h - 1)
  }

  /** `_borrowFromPrev(n, i)`: the separator `keys[i - 1]` moves down to the
      front of child `i`, the left sibling's last key moves up in its place,
      and in an internal child the sibling's last child moves across. */
  function BorrowFromPrev(n: Node, i: nat): (r: Node)
    requires !n.leaf && |n.children| == |n.keys| + 1 && 0 < i < |n.children|
    requires |n.children[i - 1].keys| > 0
    requires n.children[i].leaf || |n.children[i - 1].children| > 0
    ensures !r.leaf && |r.keys| == |n.keys| && |r.children| == |n.children|
  {
    var child, sib := n.children[i], n.children[i - 1];
    var child' := Node([n.keys[i - 1]] + child.keys,
                       if child.leaf then child.children else [sib.children[|sib.children| - 1]] + child.children,
                       child.leaf);
    var sib' := Node(sib.keys[..|sib.keys| - 1],
                     if child.leaf then sib.children else sib.children[..|sib.children| - 1],
                     sib.leaf);
    Node(n.keys[i - 1 := sib.keys[|sib.keys| - 1]], n.children[i - 1 := sib'][i := child'], n.leaf)
  }

  /** `_borrowFromNext(n, i)`: the separator `keys[i]` moves down to the end
      of child `i`, the right sibling's first key moves up in its place, and
      in an internal child the sibling's first child moves across. */
  function BorrowFromNext(n: Node, i: nat): (r: Node)
    requires !n.leaf && |n.children| == |n.keys| + 1 && i + 1 < |n.children|
    requires |n.children[i + 1].keys| > 0
    requires n.children[i].leaf || |n.children[i + 1].children| > 0
    ensures !r.leaf && |r.keys| == |n.keys| && |r.children| == |n.children|
  {
    var child, sib := n.children[i], n.children[i + 1];
    var child' := Node(child.keys + [n.keys[i]],
                       if child.leaf then child.children else child.children + [sib.children[0]],
                       child.leaf);
    var sib' := Node(sib.keys[1..], if child.leaf then sib.children else sib.children[1..], sib.leaf);
    Node(n.keys[i := sib.keys[0]], n.children[i := child'][i + 1 := sib'], n.leaf)
  }

  /** `_merge(n, i)`: child `i`, the separator `keys[i]` and child `i + 1`
      become one child; the separator and the right child leave `n`. */
  function Merge(n: Node, i: nat): (r: Node)
    requires !n.leaf && |n.children| == |n.keys| + 1 && i + 1 < |n.children|
    ensures !r.leaf && |r.keys| == |n.keys| - 1 && |r.children| == |n.children| - 1
  {
    var child, sib := n.children[i], n.children[i + 1];
    var merged := Node(child.keys + [n.keys[i]] + sib.keys,
                       if child.leaf then child.children else child.children + sib.children,
                       child.leaf);
    Node(n.keys[..i] + n.keys[i + 1..], n.children[..i] + [merged] + n.children[i + 2..], n.leaf)
  }

  /** `_fillChild(n, i)` for a child with fewer than `t` keys: borrow from
      the left sibling if it has `t` keys or more, else from the right one,
      else merge with the right sibling, or the left one when the child is
      the last.  A node with only one child reaches `_merge(n, -1)`. */
  function Fill(n: Node, i: nat, t: nat, ghost h: nat): (r: Outcome)
    requires Shaped(n, h) && !n.leaf && i < |n.children| && t >= 1
    ensures r.Ok? ==> Shaped(r.node, h) && !r.node.leaf
    ensures r.Ok? ==> |n.children| - 1 <= |r.node.children| <= |n.children|
  {
    if i > 0 && |n.children[i - 1].keys| >= t then
      BorrowPrevShape(n, i, h);
      Ok(BorrowFromPrev(n, i))
    else if i < |n.children| - 1 && |n.children[i + 1].keys| >= t then
      BorrowNextShape(n, i, h);
      Ok(BorrowFromNext(n, i))
    else if i < |n.children| - 1 then
      MergeShape(n, i, h);
      Ok(Merge(n, i))
    else if i >= 1 then
      MergeShape(n, i - 1, h);
      Ok(Merge(n, i - 1))
    else
      Failed(UndefinedChild)
  }

  /** `_delete(n, key)`: remove `key` from a leaf that holds it, replace it
      by its predecessor in an internal node that holds it, and otherwise go
      down into the child the key belongs to. */
  function Delete(n: Node, key: int, t: nat, ghost h: nat): Outcome
    requires Shaped(n, h) && t >= 1
    decreases h, 2
  {
    var i := Slot(n.keys, key);
    if i < |n.keys| && key == n.keys[i] then
      if n.leaf then Ok(n.(keys := n.keys[..i] + n.keys[i + 1..]))
      else DeleteInternal(n, i, t, h)
    else if !n.leaf then DeleteFromSubtree(n, key, i, t, h)
    else Ok(n)
  }

  /** `_deleteInternalNode(n, key, i)`: key `i` becomes its predecessor,
      which is then deleted from child `i` (with no refill beforehand). */
  function DeleteInternal(n: Node, i: nat, t: nat, ghost h: nat): Outcome
    requires Shaped(n, h) && !n.leaf && i < |n.keys| && t >= 1
    decreases h, 1
  {
    match Predecessor(n.children[i], h - 1)
    case None => Failed(UndefinedKey)
    case Some(pred) =>
      match Delete(n.children[i], pred, t, h - 1)
      case Failed(f) => Failed(f)
      case Ok(c) => Ok(n.(keys := n.keys[i := pred], children := n.children[i := c]))
  }

  /** The refill `_deleteFromSubtree` does first: only a child with fewer
      than `t` keys is refilled. */
  function Refill(n: Node, i: nat, t: nat, ghost h: nat): (r: Outcome)
    requires Shaped(n, h) && !n.leaf && i < |n.children| && t >= 1
    ensures r.Ok? ==> Shaped(r.node, h) && !r.node.leaf
    ensures r.Ok? ==> |n.children| - 1 <= |r.node.children| <= |n.children|
  {
    if |n.children[i].keys| < t then Fill(n, i, t, h) else Ok(n)
  }

  /** The child `_deleteFromSubtree` goes on to after a refill: `i`, unless
      that child is gone or still has fewer than `t` keys, and then `i - 1`
      (which is `-1` for the first child). */
  function Target(m: Node, i: nat, t: nat): int
  {
    if i < |m.children| && |m.children[i].keys| >= t then i else i - 1
  }

  /** `_deleteFromSubtree(n, key, i)`: refill child `i` if it has fewer than
      `t` keys, then delete `key` from the child `Target` names. */
  function DeleteFromSubtree(n: Node, key: int, i: nat, t: nat, ghost h: nat): Outcome
    requires Shaped(n, h) && !n.leaf && i < |n.children| && t >= 1
    decreases h, 1
  {
    match Refill(n, i, t, h)
    case Failed(f) => Failed(f)
    case Ok(m) =>
      var j := Target(m, i, t);
      if j < 0 then Failed(UndefinedChild)
      else
        match Delete(m.children[j], key, t, h - 1)
        case Failed(f) => Failed(f)
        case Ok(c) => Ok(m.(children := m.children[j := c]))
  }

  // ---------------------------------------------------------------------
  // The shape each step keeps.

  lemma {:induction false} BorrowPrevShape(n: Node, i: nat, h: nat)
    requires Shaped(n, h) && !n.leaf && 0 < i < |n.children| && |n.children[i - 1].keys| > 0
    ensures n.children[i].leaf || |n.children[i - 1].children| > 0
    ensures Shaped(BorrowFromPrev(n, i), h)
  {
    var r := BorrowFromPrev(n, i);
    var child, sib := n.children[i], n.children[i - 1];
    assert Shaped(child, h - 1) && Shaped(sib, h - 1);
    forall j | 0 <= j < |r.children| ensures Shaped(r.children[j], h - 1) {
      if j != i && j != i - 1 {
        assert r.children[j] == n.children[j];
      } else if !child.leaf {
        var c := r.children[j];
        forall k | 0 <= k < |c.children| ensures Shaped(c.children[k], h - 2) {
          if j == i {
            assert c.children[k] == if k == 0 then sib.children[|sib.children| - 1] else child.children[k - 1];
          } else {
            assert c.children[k] == sib.children[k];
          }
        }
      }
    }
  }

  lemma {:induction false} BorrowNextShape(n: Node, i: nat, h: nat)
    requires Shaped(n, h) && !n.leaf && i + 1 < |n.children| && |n.children[i + 1].keys| > 0
    ensures n.children[i].leaf || |n.children[i + 1].children| > 0
    ensures Shaped(BorrowFromNext(n, i), h)
  {
    var r := BorrowFromNext(n, i);
    var child, sib := n.children[i], n.children[i + 1];
    assert Shaped(child, h - 1) && Shaped(sib, h - 1);
    forall j | 0 <= j < |r.children| ensures Shaped(r.children[j], h - 1) {
      if j != i && j != i + 1 {
        assert r.children[j] == n.children[j];
      } else if !child.leaf {
        var c := r.children[j];
        forall k | 0 <= k < |c.children| ensures Shaped(c.children[k], h - 2) {
          if j == i {
            assert c.children[k] == if k < |child.children| then child.children[k] else sib.children[0];
          } else {
            assert c.children[k] == sib.children[k + 1];
          }
        }
      }
    }
  }

  lemma {:induction false} MergeShape(n: Node, i: nat, h: nat)
    requires Shaped(n, h) && !n.leaf && i + 1 < |n.children|
    ensures Shaped(Merge(n, i), h)
  {
    var r := Merge(n, i);
    var child, sib := n.children[i], n.children[i + 1];
    assert Shaped(child, h - 1) && Shaped(sib, h - 1);
    forall j | 0 <= j < |r.children| ensures Shaped(r.children[j], h - 1) {
      if j < i {
        assert r.children[j] == n.children[j];
      } else if j > i {
        assert r.children[j] == n.children[j + 1];
      } else if !child.leaf {
        var c := r.children[j];
        forall k | 0 <= k < |c.children| ensures Shaped(c.children[k], h - 2) {
          assert c.children[k] == if k < |child.children| then child.children[k] else sib.children[k - |child.children|];
        }
      }
    }
  }

  // ---------------------------------------------------------------------
  // Each step keeps the in-order sequence.

  /** The left sibling gives up its last key (and last child), the child
      gains the separator (and that child) in front. */
  lemma {:induction false} BorrowPrevPair(S: Node, C: Node, S': Node, C': Node, k: int, h: nat)
    requires Shaped(S, h) && Shaped(C, h) && |S.keys| > 0
    requires S' == Node(S.keys[..|S.keys| - 1], if C.leaf then S.children else S.children[..|S.children| - 1], S.leaf)
    requires C' == Node([k] + C.keys, if C.leaf then C.children else [S.children[|S.children| - 1]] + C.children, C.leaf)
    ensures Inorder(S') + [S.keys[|S.keys| - 1]] + Inorder(C') == Inorder(S) + [k] + Inorder(C)
    ensures Within(Inorder(C), Inorder(C'))
  {
    var sl := S.keys[|S.keys| - 1];
    if C.leaf {
      assert S.keys == S'.keys + [sl];
    } else {
      var g := S.children[|S.children| - 1];
      TakeLast(S, h);
      PutFirst(g, C, k, h);
      Assoc4(Inorder(S'), [sl], Inorder(g), [k] + Inorder(C));
    }
  }

  /** A node without its last key and last child. */
  lemma {:induction false} TakeLast(S: Node, h: nat)
    requires Shaped(S, h) && !S.leaf && |S.keys| > 0
    ensures Inorder(S) == Inorder(Node(S.keys[..|S.keys| - 1], S.children[..|S.children| - 1], false)) +
      [S.keys[|S.keys| - 1]] + Inorder(S.children[|S.children| - 1])
  {
    WeaveLast(S.children, S.keys);
  }

  /** A node given a first child and a first key. */
  lemma {:induction false} PutFirst(g: Node, C: Node, k: int, h: nat)
    requires Shaped(C, h) && !C.leaf
    ensures Inorder(Node([k] + C.keys, [g] + C.children, false)) == Inorder(g) + ([k] + Inorder(C))
  {
    WeaveJoin([g], C.children, [], k, C.keys);
    assert [] + [k] + C.keys == [k] + C.keys;
  }

  /** A node without its first key and first child. */
  lemma {:induction false} TakeFirst(S: Node, h: nat)
    requires Shaped(S, h) && !S.leaf && |S.keys| > 0
    ensures Inorder(S) == Inorder(S.children[0]) + ([S.keys[0]] + Inorder(Node(S.keys[1..], S.children[1..], false)))
  {
    assert S.children == [S.children[0]] + S.children[1..];
    assert S.keys == [] + [S.keys[0]] + S.keys[1..];
    WeaveJoin([S.children[0]], S.children[1..], [], S.keys[0], S.keys[1..]);
  }

  /** A node given a last child and a last key. */
  lemma {:induction false} PutLast(C: Node, g: Node, k: int, h: nat)
    requires Shaped(C, h) && !C.leaf
    ensures Inorder(Node(C.keys + [k], C.children + [g], false)) == Inorder(C) + [k] + Inorder(g)
  {
    WeaveJoin(C.children, [g], C.keys, k, []);
    assert C.keys + [k] + [] == C.keys + [k];
  }

  lemma Assoc4<T>(a: seq<T>, b: seq<T>, c: seq<T>, d: seq<T>)
    ensures a + b + (c + d) == a + b + c + d
  {
  }

  lemma {:induction false} BorrowPrevInorder(n: Node, i: nat, h: nat)
    requires Shaped(n, h) && !n.leaf && 0 < i < |n.children| && |n.children[i - 1].keys| > 0
    requires n.children[i].leaf || |n.children[i - 1].children| > 0
    ensures Inorder(BorrowFromPrev(n, i)) == Inorder(n)
    ensures Within(Inorder(n.children[i]), Inorder(BorrowFromPrev(n, i).children[i]))
  {
    assert Shaped(n.children[i - 1], h - 1) && Shaped(n.children[i], h - 1);
    BorrowPrevWhole(n, i - 1, h - 1);
  }

  /** `BorrowPrevInorder` for child `j + 1` borrowing from child `j`, both
      of height `h`. */
  lemma {:induction false} BorrowPrevWhole(n: Node, j: nat, h: nat)
    requires !n.leaf && |n.children| == |n.keys| + 1 && j + 1 < |n.children| && |n.children[j].keys| > 0
    requires n.children[j + 1].leaf || |n.children[j].children| > 0
    requires Shaped(n.children[j], h) && Shaped(n.children[j + 1], h)
    ensures Inorder(BorrowFromPrev(n, j + 1)) == Inorder(n)
    ensures Within(Inorder(n.children[j + 1]), Inorder(BorrowFromPrev(n, j + 1).children[j + 1]))
  {
    var r := BorrowFromPrev(n, j + 1);
    var S, C := n.children[j], n.children[j + 1];
    BorrowPrevFrame(n, j + 1);
    BorrowPrevPair(S, C, r.children[j], r.children[j + 1], n.keys[j], h);
    InorderAt2(n, j);
    InorderAt2(r, j);
    Splice(Inorder(n), Inorder(r), Lead(n.children[..j], n.keys[..j]), Inorder(S), [n.keys[j]], Inorder(C),
      Inorder(r.children[j]), [r.keys[j]], Inorder(r.children[j + 1]), Trail(n.children[j + 2..], n.keys[j + 1..]));
  }

  /** What borrowing from the left leaves alone. */
  lemma {:induction false} BorrowPrevFrame(n: Node, i: nat)
    requires !n.leaf && |n.children| == |n.keys| + 1 && 0 < i < |n.children| && |n.children[i - 1].keys| > 0
    requires n.children[i].leaf || |n.children[i - 1].children| > 0
    ensures var r := BorrowFromPrev(n, i);
      r.children[..i - 1] == n.children[..i - 1] && r.children[i + 1..] == n.children[i + 1..] &&
      r.keys[..i - 1] == n.keys[..i - 1] && r.keys[i..] == n.keys[i..] &&
      r.keys[i - 1] == n.children[i - 1].keys[|n.children[i - 1].keys| - 1] &&
      var S, C := n.children[i - 1], n.children[i];
      r.children[i - 1] == Node(S.keys[..|S.keys| - 1], if C.leaf then S.children else S.children[..|S.children| - 1], S.leaf) &&
      r.children[i] == Node([n.keys[i - 1]] + C.keys, if C.leaf then C.children else [S.children[|S.children| - 1]] + C.children, C.leaf)
  {
  }

  /** The right sibling gives up its first key (and first child), the child
      gains the separator (and that child) at its end. */
  lemma {:induction false} BorrowNextPair(C: Node, S: Node, C': Node, S': Node, k: int, h: nat)
    requires Shaped(S, h) && Shaped(C, h) && |S.keys| > 0
    requires S' == Node(S.keys[1..], if C.leaf then S.children else S.children[1..], S.leaf)
    requires C' == Node(C.keys + [k], if C.leaf then C.children else C.children + [S.children[0]], C.leaf)
    ensures Inorder(C') + [S.keys[0]] + Inorder(S') == Inorder(C) + [k] + Inorder(S)
    ensures Within(Inorder(C), Inorder(C'))
  {
    var sf := S.keys[0];
    if C.leaf {
      assert S.keys == [sf] + S'.keys;
    } else {
      var g := S.children[0];
      TakeFirst(S, h);
      PutLast(C, g, k, h);
      Assoc4(Inorder(C) + [k], Inorder(g), [sf], Inorder(S'));
    }
  }

  lemma {:induction false} BorrowNextInorder(n: Node, i: nat, h: nat)
    requires Shaped(n, h) && !n.leaf && i + 1 < |n.children| && |n.children[i + 1].keys| > 0
    requires n.children[i].leaf || |n.children[i + 1].children| > 0
    ensures Inorder(BorrowFromNext(n, i)) == Inorder(n)
    ensures Within(Inorder(n.children[i]), Inorder(BorrowFromNext(n, i).children[i]))
  {
    assert Shaped(n.children[i + 1], h - 1) && Shaped(n.children[i], h - 1);
    BorrowNextWhole(n, i, h - 1);
  }

  /** `BorrowNextInorder` for the two children involved, of height `h`. */
  lemma {:induction false} BorrowNextWhole(n: Node, i: nat, h: nat)
    requires !n.leaf && |n.children| == |n.keys| + 1 && i + 1 < |n.children| && |n.children[i + 1].keys| > 0
    requires n.children[i].leaf || |n.children[i + 1].children| > 0
    requires Shaped(n.children[i + 1], h) && Shaped(n.children[i], h)
    ensures Inorder(BorrowFromNext(n, i)) == Inorder(n)
    ensures Within(Inorder(n.children[i]), Inorder(BorrowFromNext(n, i).children[i]))
  {
    var r := BorrowFromNext(n, i);
    var C, S := n.children[i], n.children[i + 1];
    BorrowNextPair(C, S, r.children[i], r.children[i + 1], n.keys[i], h);
    BorrowNextFrame(n, i);
    InorderAt2(n, i);
    InorderAt2(r, i);
    Splice(Inorder(n), Inorder(r), Lead(n.children[..i], n.keys[..i]), Inorder(C), [n.keys[i]], Inorder(S),
      Inorder(r.children[i]), [r.keys[i]], Inorder(r.children[i + 1]), Trail(n.children[i + 2..], n.keys[i + 1..]));
  }

  /** What borrowing from the right leaves alone. */
  lemma {:induction false} BorrowNextFrame(n: Node, i: nat)
    requires !n.leaf && |n.children| == |n.keys| + 1 && i + 1 < |n.children| && |n.children[i + 1].keys| > 0
    requires n.children[i].leaf || |n.children[i + 1].children| > 0
    ensures var r := BorrowFromNext(n, i);
      r.children[..i] == n.children[..i] && r.children[i + 2..] == n.children[i + 2..] &&
      r.keys[..i] == n.keys[..i] && r.keys[i + 1..] == n.keys[i + 1..] &&
      r.keys[i] == n.children[i + 1].keys[0]
  {
  }

  /** A merged child is the left child, the separator and the right child. */
  lemma {:induction false} MergePair(C: Node, S: Node, k: int, h: nat)
    requires Shaped(S, h) && Shaped(C, h)
    ensures var M := Node(C.keys + [k] + S.keys, if C.leaf then C.children else C.children + S.children, C.leaf);
      Inorder(M) == Inorder(C) + [k] + Inorder(S)
  {
    if !C.leaf {
      WeaveJoin(C.children, S.children, C.keys, k, S.keys);
    }
  }

  lemma {:induction false} MergeInorder(n: Node, i: nat, h: nat)
    requires Shaped(n, h) && !n.leaf && i + 1 < |n.children|
    ensures Inorder(Merge(n, i)) == Inorder(n)
    ensures Inorder(Merge(n, i).children[i]) == Inorder(n.children[i]) + [n.keys[i]] + Inorder(n.children[i + 1])
  {
    MergeShape(n, i, h);
    var r := Merge(n, i);
    var C, S, k, M := n.children[i], n.children[i + 1], n.keys[i], r.children[i];
    var P, Q, X, Y := n.children[..i], n.children[i + 2..], n.keys[..i], n.keys[i + 1..];
    MergeParts(n, i);
    WeaveAround2(P, C, k, S, Q, X, Y);
    WeaveAround(P, M, Q, X, Y);
    MergePair(C, S, k, h - 1);
    Regroup(Lead(P, X), Inorder(C), [k], Inorder(S), Trail(Q, Y));
  }

  /** The children and keys of a node around the pair `_merge` joins, before
      and after. */
  lemma MergeParts(n: Node, i: nat)
    requires !n.leaf && |n.children| == |n.keys| + 1 && i + 1 < |n.children|
    ensures var r := Merge(n, i);
      var P, Q, X, Y := n.children[..i], n.children[i + 2..], n.keys[..i], n.keys[i + 1..];
      n.children == P + [n.children[i], n.children[i + 1]] + Q && n.keys == X + [n.keys[i]] + Y &&
      r.children == P + [r.children[i]] + Q && r.keys == X + Y
  {
    var r := Merge(n, i);
    var P, Q, X, Y := n.children[..i], n.children[i + 2..], n.keys[..i], n.keys[i + 1..];
    assert n.children == P + [n.children[i], n.children[i + 1]] + Q;
    assert n.keys == X + [n.keys[i]] + Y;
    assert r.children == P + [r.children[i]] + Q;
  }

  // ---------------------------------------------------------------------
  // Bounds and fill of each step.

  lemma {:induction false} BorrowPrevBounded(n: Node, i: nat, t: nat, h: nat)
    requires Shaped(n, h) && !n.leaf && 0 < i < |n.children| && |n.children[i - 1].keys| > 0
    requires n.children[i].leaf || |n.children[i - 1].children| > 0
    requires Bounded(n, t) && |n.children[i].keys| + 1 <= 2 * t - 1
    ensures Bounded(BorrowFromPrev(n, i), t)
  {
    var r := BorrowFromPrev(n, i);
    var S, C := n.children[i - 1], n.children[i];
    assert Bounded(S, t) && Bounded(C, t);
    forall j | 0 <= j < |r.children| ensures Bounded(r.children[j], t) {
      if j != i && j != i - 1 {
        assert r.children[j] == n.children[j];
      } else {
        var c := r.children[j];
        forall k | 0 <= k < |c.children| ensures Bounded(c.children[k], t) {
          if j == i && !C.leaf {
            assert c.children[k] == if k == 0 then S.children[|S.children| - 1] else C.children[k - 1];
          } else if j == i - 1 {
            assert c.children[k] == S.children[k];
          }
        }
      }
    }
  }

  lemma {:induction false} BorrowNextBounded(n: Node, i: nat, t: nat, h: nat)
    requires Shaped(n, h) && !n.leaf && i + 1 < |n.children| && |n.children[i + 1].keys| > 0
    requires n.children[i].leaf || |n.children[i + 1].children| > 0
    requires Bounded(n, t) && |n.children[i].keys| + 1 <= 2 * t - 1
    ensures Bounded(BorrowFromNext(n, i), t)
  {
    var r := BorrowFromNext(n, i);
    var C, S := n.children[i], n.children[i + 1];
    assert Bounded(S, t) && Bounded(C, t);
    forall j | 0 <= j < |r.children| ensures Bounded(r.children[j], t) {
      if j != i && j != i + 1 {
        assert r.children[j] == n.children[j];
      } else {
        var c := r.children[j];
        forall k | 0 <= k < |c.children| ensures Bounded(c.children[k], t) {
          if j == i && !C.leaf {
            assert c.children[k] == if k < |C.children| then C.children[k] else S.children[0];
          } else if j == i + 1 && !C.leaf {
            assert c.children[k] == S.children[k + 1];
          }
        }
      }
    }
  }

  lemma {:induction false} MergeBounded(n: Node, i: nat, t: nat, h: nat)
    requires Shaped(n, h) && !n.leaf && i + 1 < |n.children|
    requires Bounded(n, t) && |n.children[i].keys| + 1 + |n.children[i + 1].keys| <= 2 * t - 1
    ensures Bounded(Merge(n, i), t)
  {
    var r := Merge(n, i);
    var C, S := n.children[i], n.children[i + 1];
    assert Bounded(S, t) && Bounded(C, t);
    forall j | 0 <= j < |r.children| ensures Bounded(r.children[j], t) {
      if j < i {
        assert r.children[j] == n.children[j];
      } else if j > i {
        assert r.children[j] == n.children[j + 1];
      } else {
        var c := r.children[j];
        forall k | 0 <= k < |c.children| ensures Bounded(c.children[k], t) {
          if !C.leaf {
            assert c.children[k] == if k < |C.children| then C.children[k] else S.children[k - |C.children|];
          }
        }
      }
    }
  }

  /** The child that borrowed from the left has one key more, and keeps the
      fill when every node below `n` had it. */
  lemma {:induction false} BorrowPrevFill(n: Node, i: nat, t: nat, h: nat)
    requires Shaped(n, h) && !n.leaf && 0 < i < |n.children| && |n.children[i - 1].keys| > 0
    requires n.children[i].leaf || |n.children[i - 1].children| > 0
    requires MinFilled(n, t)
    ensures |BorrowFromPrev(n, i).children[i].keys| == |n.children[i].keys| + 1
    ensures MinFilled(BorrowFromPrev(n, i).children[i], t)
  {
    var c := BorrowFromPrev(n, i).children[i];
    var S, C := n.children[i - 1], n.children[i];
    assert MinFilled(S, t) && MinFilled(C, t);
    forall k | 0 <= k < |c.children| ensures |c.children[k].keys| >= t - 1 && MinFilled(c.children[k], t) {
      if !C.leaf {
        assert c.children[k] == if k == 0 then S.children[|S.children| - 1] else C.children[k - 1];
      }
    }
  }

  lemma {:induction false} BorrowNextFill(n: Node, i: nat, t: nat, h: nat)
    requires Shaped(n, h) && !n.leaf && i + 1 < |n.children| && |n.children[i + 1].keys| > 0
    requires n.children[i].leaf || |n.children[i + 1].children| > 0
    requires MinFilled(n, t)
    ensures |BorrowFromNext(n, i).children[i].keys| == |n.children[i].keys| + 1
    ensures MinFilled(BorrowFromNext(n, i).children[i], t)
  {
    var c := BorrowFromNext(n, i).children[i];
    var C, S := n.children[i], n.children[i + 1];
    assert MinFilled(S, t) && MinFilled(C, t);
    forall k | 0 <= k < |c.children| ensures |c.children[k].keys| >= t - 1 && MinFilled(c.children[k], t) {
      if !C.leaf {
        assert c.children[k] == if k < |C.children| then C.children[k] else S.children[0];
      }
    }
  }

  lemma {:induction false} MergeFill(n: Node, i: nat, t: nat, h: nat)
    requires Shaped(n, h) && !n.leaf && i + 1 < |n.children|
    requires MinFilled(n, t)
    ensures |Merge(n, i).children[i].keys| == |n.children[i].keys| + 1 + |n.children[i + 1].keys|
    ensures MinFilled(Merge(n, i).children[i], t)
  {
    var c := Merge(n, i).children[i];
    var C, S := n.children[i], n.children[i + 1];
    assert MinFilled(S, t) && MinFilled(C, t);
    forall k | 0 <= k < |c.children| ensures |c.children[k].keys| >= t - 1 && MinFilled(c.children[k], t) {
      if !C.leaf {
        assert c.children[k] == if k < |C.children| then C.children[k] else S.children[k - |C.children|];
      }
    }
  }

  /** The outcome, if a success, holds the same keys in order as `n` and
      keeps every node within the key bound. */
  ghost predicate Keeps(n: Node, r: Outcome, t: nat)
  {
    r.Ok? ==> Inorder(r.node) == Inorder(n) && Bounded(r.node, t)
  }

  /** A refill keeps the in-order sequence and the bounds. */
  lemma {:induction false} FillKeeps(n: Node, i: nat, t: nat, h: nat)
    requires Shaped(n, h) && !n.leaf && i < |n.children| && t >= 1
    requires Bounded(n, t) && |n.children[i].keys| < t
    ensures Keeps(n, Fill(n, i, t, h), t)
  {
    if i > 0 && |n.children[i - 1].keys| >= t {
      FillPrevKeeps(n, i, t, h);
    } else if i < |n.children| - 1 && |n.children[i + 1].keys| >= t {
      FillNextKeeps(n, i, t, h);
    } else if i < |n.children| - 1 {
      FillMergeKeeps(n, i, t, h);
    } else if i >= 1 {
      FillMergeLastKeeps(n, i, t, h);
    }
  }

  lemma {:induction false} FillPrevKeeps(n: Node, i: nat, t: nat, h: nat)
    requires Shaped(n, h) && !n.leaf && i < |n.children| && t >= 1
    requires Bounded(n, t) && |n.children[i].keys| < t
    requires i > 0 && |n.children[i - 1].keys| >= t
    ensures Keeps(n, Fill(n, i, t, h), t)
  {
    BorrowPrevShape(n, i, h);
    BorrowPrevInorder(n, i, h);
    BorrowPrevBounded(n, i, t, h);
    assert Fill(n, i, t, h) == Ok(BorrowFromPrev(n, i));
  }

  lemma {:induction false} FillNextKeeps(n: Node, i: nat, t: nat, h: nat)
    requires Shaped(n, h) && !n.leaf && i < |n.children| && t >= 1
    requires Bounded(n, t) && |n.children[i].keys| < t
    requires !(i > 0 && |n.children[i - 1].keys| >= t)
    requires i < |n.children| - 1 && |n.children[i + 1].keys| >= t
    ensures Keeps(n, Fill(n, i, t, h), t)
  {
    BorrowNextShape(n, i, h);
    BorrowNextInorder(n, i, h);
    BorrowNextBounded(n, i, t, h);
    assert Fill(n, i, t, h) == Ok(BorrowFromNext(n, i));
  }

  lemma {:induction false} FillMergeKeeps(n: Node, i: nat, t: nat, h: nat)
    requires Shaped(n, h) && !n.leaf && i + 1 < |n.children| && t >= 1
    requires Bounded(n, t) && |n.children[i].keys| < t
    requires !(i > 0 && |n.children[i - 1].keys| >= t) && |n.children[i + 1].keys| < t
    ensures Keeps(n, Fill(n, i, t, h), t)
  {
    MergeInorder(n, i, h);
    MergeBounded(n, i, t, h);
    assert Fill(n, i, t, h) == Ok(Merge(n, i));
  }

  lemma {:induction false} FillMergeLastKeeps(n: Node, i: nat, t: nat, h: nat)
    requires Shaped(n, h) && !n.leaf && 1 <= i == |n.children| - 1 && t >= 1
    requires Bounded(n, t) && |n.children[i].keys| < t && |n.children[i - 1].keys| < t
    ensures Keeps(n, Fill(n, i, t, h), t)
  {
    MergeInorder(n, i - 1, h);
    MergeBounded(n, i - 1, t, h);
    assert Fill(n, i, t, h) == Ok(Merge(n, i - 1));
  }

  /** The child that borrowed holds at least `t` keys, is filled below and
      contains what it held. */
  lemma {:induction false} RoutePrev(n: Node, i: nat, t: nat, h: nat)
    requires Shaped(n, h) && !n.leaf && 0 < i < |n.children| && |n.children[i - 1].keys| >= t >= 2
    requires n.children[i].leaf || |n.children[i - 1].children| > 0
    requires MinFilled(n, t)
    ensures var c := BorrowFromPrev(n, i).children[i];
      |c.keys| >= t && MinFilled(c, t) && Within(Inorder(n.children[i]), Inorder(c))
  {
    BorrowPrevShape(n, i, h);
    BorrowPrevInorder(n, i, h);
    BorrowPrevFill(n, i, t, h);
  }

  lemma {:induction false} RouteNext(n: Node, i: nat, t: nat, h: nat)
    requires Shaped(n, h) && !n.leaf && i + 1 < |n.children| && |n.children[i + 1].keys| >= t >= 2
    requires n.children[i].leaf || |n.children[i + 1].children| > 0
    requires MinFilled(n, t)
    ensures var c := BorrowFromNext(n, i).children[i];
      |c.keys| >= t && MinFilled(c, t) && Within(Inorder(n.children[i]), Inorder(c))
  {
    BorrowNextShape(n, i, h);
    BorrowNextInorder(n, i, h);
    BorrowNextFill(n, i, t, h);
  }

  /** The merged child holds at least `t` keys, is filled below and contains
      both children it was made from. */
  lemma {:induction false} RouteMerge(n: Node, i: nat, t: nat, h: nat)
    requires Shaped(n, h) && !n.leaf && i + 1 < |n.children| && t >= 2
    requires MinFilled(n, t)
    ensures var c := Merge(n, i).children[i];
      |c.keys| >= t && MinFilled(c, t) &&
      Within(Inorder(n.children[i]), Inorder(c)) && Within(Inorder(n.children[i + 1]), Inorder(c))
  {
    MergeInorder(n, i, h);
    MergeFill(n, i, t, h);
  }

  /** The outcome is a success, and the child `Target` names exists, holds
      at least `t` keys, is filled below and contains every key child `i` of
      `n` held. */
  ghost predicate Routed(n: Node, i: nat, r: Outcome, t: nat)
    requires i < |n.children|
  {
    r.Ok? &&
    var m := r.node; var j := Target(m, i, t);
    0 <= j < |m.children| && |m.children[j].keys| >= t && MinFilled(m.children[j], t) &&
    Within(Inorder(n.children[i]), Inorder(m.children[j]))
  }

  /** In a tree whose nodes below `n` hold at least `t - 1` keys, a refill
      of child `i` succeeds, and the child `_deleteFromSubtree` then goes to
      holds at least `t` keys, is filled below, and contains child `i`. */
  lemma {:induction false} FillRoute(n: Node, i: nat, t: nat, h: nat)
    requires Shaped(n, h) && !n.leaf && i < |n.children| && t >= 2
    requires MinFilled(n, t) && |n.keys| >= 1 && |n.children[i].keys| < t
    ensures Routed(n, i, Fill(n, i, t, h), t)
  {
    if i > 0 && |n.children[i - 1].keys| >= t {
      FillPrevRoute(n, i, t, h);
    } else if i < |n.children| - 1 && |n.children[i + 1].keys| >= t {
      FillNextRoute(n, i, t, h);
    } else if i < |n.children| - 1 {
      FillMergeRoute(n, i, t, h);
    } else {
      FillMergeLastRoute(n, i, t, h);
    }
  }

  lemma {:induction false} FillPrevRoute(n: Node, i: nat, t: nat, h: nat)
    requires Shaped(n, h) && !n.leaf && i < |n.children| && t >= 2
    requires MinFilled(n, t) && |n.children[i].keys| < t
    requires i > 0 && |n.children[i - 1].keys| >= t
    ensures Routed(n, i, Fill(n, i, t, h), t)
  {
    BorrowPrevShape(n, i, h);
    RoutePrev(n, i, t, h);
    assert Fill(n, i, t, h) == Ok(BorrowFromPrev(n, i));
  }

  lemma {:induction false} FillNextRoute(n: Node, i: nat, t: nat, h: nat)
    requires Shaped(n, h) && !n.leaf && i < |n.children| && t >= 2
    requires MinFilled(n, t) && |n.children[i].keys| < t
    requires !(i > 0 && |n.children[i - 1].keys| >= t)
    requires i < |n.children| - 1 && |n.children[i + 1].keys| >= t
    ensures Routed(n, i, Fill(n, i, t, h), t)
  {
    BorrowNextShape(n, i, h);
    RouteNext(n, i, t, h);
    assert Fill(n, i, t, h) == Ok(BorrowFromNext(n, i));
  }

  lemma {:induction false} FillMergeRoute(n: Node, i: nat, t: nat, h: nat)
    requires Shaped(n, h) && !n.leaf && i + 1 < |n.children| && t >= 2
    requires MinFilled(n, t) && |n.children[i].keys| < t
    requires !(i > 0 && |n.children[i - 1].keys| >= t) && |n.children[i + 1].keys| < t
    ensures Routed(n, i, Fill(n, i, t, h), t)
  {
    RouteMerge(n, i, t, h);
    assert Fill(n, i, t, h) == Ok(Merge(n, i));
  }

  lemma {:induction false} FillMergeLastRoute(n: Node, i: nat, t: nat, h: nat)
    requires Shaped(n, h) && !n.leaf && 1 <= i == |n.children| - 1 && t >= 2
    requires MinFilled(n, t) && |n.children[i].keys| < t && |n.children[i - 1].keys| < t
    ensures Routed(n, i, Fill(n, i, t, h), t)
  {
    RouteMerge(n, i - 1, t, h);
    assert Fill(n, i, t, h) == Ok(Merge(n, i - 1));
  }

  // ---------------------------------------------------------------------
  // The steps of a deletion, on sequences.

  /** Dropping key `i` of a leaf removes exactly that key and keeps the
      leaf sorted. */
  lemma {:induction false} LeafRemove(ks: seq<int>, i: nat)
    requires i < |ks|
    ensures multiset(ks[..i] + ks[i + 1..]) == multiset(ks) - multiset{ks[i]}
    ensures Within(ks[..i] + ks[i + 1..], ks)
    ensures Sorted(ks) ==> Sorted(ks[..i] + ks[i + 1..])
  {
    LeafRemoveCount(ks, i);
    var r := ks[..i] + ks[i + 1..];
    forall x | x in r ensures x in ks {
      assert x in multiset(r);
    }
    if Sorted(ks) {
      LeafRemoveSorted(ks, i);
    }
  }

  lemma {:induction false} LeafRemoveCount(ks: seq<int>, i: nat)
    requires i < |ks|
    ensures multiset(ks[..i] + ks[i + 1..]) == multiset(ks) - multiset{ks[i]}
  {
    assert ks == ks[..i] + [ks[i]] + ks[i + 1..];
  }

  lemma {:induction false} LeafRemoveSorted(ks: seq<int>, i: nat)
    requires i < |ks| && Sorted(ks)
    ensures Sorted(ks[..i] + ks[i + 1..])
  {
    var r := ks[..i] + ks[i + 1..];
    forall p, q | 0 <= p < q < |r| ensures r[p] <= r[q] {
      var p', q' := if p < i then p else p + 1, if q < i then q else q + 1;
      assert r[p] == ks[p'] && r[q] == ks[q'];
    }
  }

  /** A sorted leaf without `key` at its slot does not hold `key` at all. */
  lemma {:induction false} LeafAbsent(ks: seq<int>, key: int)
    requires Sorted(ks) && (Slot(ks, key) == |ks| || ks[Slot(ks, key)] != key)
    ensures key !in ks
    ensures multiset(ks) - multiset{key} == multiset(ks)
  {
    var i := Slot(ks, key);
    forall j | 0 <= j < |ks| ensures ks[j] != key {
      if j >= i {
        assert ks[i] <= ks[j];
      }
    }
  }

  /** The predecessor is the last element of the subtree's in-order
      sequence. */
  lemma {:induction false} PredecessorLast(c: Node, h: nat)
    requires Shaped(c, h)
    ensures Predecessor(c, h).Some? ==>
      Inorder(c) != [] && Inorder(c)[|Inorder(c)| - 1] == Predecessor(c, h).value
    decreases h
  {
    if !c.leaf {
      var P, g := c.children[..|c.children| - 1], c.children[|c.children| - 1];
      assert c.children == P + [g];
      WeaveSnoc(P, g, c.keys);
      PredecessorLast(g, h - 1);
    }
  }

  /** Below a node with a key, in a tree whose nodes hold at least `t - 1 >= 1`
      keys, the rightmost leaf is not empty. */
  lemma {:induction false} PredecessorSome(c: Node, h: nat, t: nat)
    requires Shaped(c, h) && t >= 2 && MinFilled(c, t) && |c.keys| >= 1
    ensures Predecessor(c, h).Some?
    decreases h
  {
    if !c.leaf {
      PredecessorSome(c.children[|c.children| - 1], h - 1, t);
    }
  }

  /** The in-order sequences around key `i` of an internal node, before and
      after that key becomes `pred` and child `i` becomes `c`. */
  lemma {:induction false} InternalSplit(n: Node, i: nat, c: Node, pred: int)
    requires !n.leaf && |n.children| == |n.keys| + 1 && i < |n.keys|
    ensures var r := n.(keys := n.keys[i := pred], children := n.children[i := c]);
      var L, W := Lead(n.children[..i], n.keys[..i]), Weave(n.children[i + 1..], n.keys[i + 1..]);
      Inorder(n) == L + Inorder(n.children[i]) + ([n.keys[i]] + W) &&
      Inorder(r) == L + Inorder(c) + ([pred] + W)
  {
    var r := n.(keys := n.keys[i := pred], children := n.children[i := c]);
    assert r.children[..i] == n.children[..i] && r.keys[..i] == n.keys[..i];
    assert r.children[i + 1..] == n.children[i + 1..];
    assert r.keys[i..][1..] == n.keys[i + 1..] && n.keys[i..][1..] == n.keys[i + 1..];
    InorderAt(n, i);
    InorderAt(r, i);
  }

  /** The key replaced by the last element `p` of the run before it, with
      `p` removed from that run, leaves the whole sorted. */
  lemma {:induction false} InternalOrder(L: seq<int>, M: seq<int>, k: int, W: seq<int>, C: seq<int>, p: int)
    requires Sorted(L + M + ([k] + W)) && Sorted(C) && Within(C, M) && M != [] && p == M[|M| - 1]
    ensures Sorted(L + C + ([p] + W))
  {
    SortedParts(L, M, [k] + W);
    SortedAround(M, []);
    SortedJoin(C, [p]);
    assert L + M + ([k] + W) == L + (M + [k]) + W;
    forall x | x in C + [p] ensures (forall l :: l in L ==> l <= x) && (forall y :: y in W ==> x <= y) {
      assert x in M + [k];
      Between(L, M + [k], W, x);
    }
    SortedSwap(L, M + [k], C + [p], W);
    assert L + (C + [p]) + W == L + C + ([p] + W);
  }

  lemma {:induction false} InternalWithin(L: seq<int>, M: seq<int>, k: int, W: seq<int>, C: seq<int>, p: int)
    requires Within(C, M) && p in M
    ensures Within(L + C + ([p] + W), L + M + ([k] + W))
  {
  }

  /** The replaced key leaves the multiset, and the predecessor trades its
      place in the run for the key's place. */
  lemma {:induction false} InternalCount(L: seq<int>, M: seq<int>, k: int, W: seq<int>, C: seq<int>, p: int)
    requires multiset(C) == multiset(M) - multiset{p} && p in M
    ensures multiset(L + C + ([p] + W)) == multiset(L + M + ([k] + W)) - multiset{k}
  {
    assert multiset(C) + multiset{p} == multiset(M);
  }

  /** Replacing key `i` by the predecessor and child `i` by what the
      predecessor's removal left keeps shape, bounds and order. */
  lemma {:induction false} InternalStep(n: Node, i: nat, pred: int, c: Node, t: nat, h: nat)
    requires Shaped(n, h) && !n.leaf && i < |n.keys| && Bounded(n, t) && Sorted(Inorder(n))
    requires Shaped(c, h - 1) && Bounded(c, t) && Sorted(Inorder(c)) && Within(Inorder(c), Inorder(n.children[i]))
    requires Inorder(n.children[i]) != [] && pred == Inorder(n.children[i])[|Inorder(n.children[i])| - 1]
    ensures Kept(n, n.(keys := n.keys[i := pred], children := n.children[i := c]), t, h)
  {
    var r := n.(keys := n.keys[i := pred], children := n.children[i := c]);
    var L, M, W := Lead(n.children[..i], n.keys[..i]), Inorder(n.children[i]), Weave(n.children[i + 1..], n.keys[i + 1..]);
    InternalSplit(n, i, c, pred);
    InternalOrder(L, M, n.keys[i], W, Inorder(c), pred);
    InternalWithin(L, M, n.keys[i], W, Inorder(c), pred);
    var n1 := n.(keys := n.keys[i := pred]);
    assert Shaped(n1, h) && Bounded(n1, t);
    ReplaceShape(n1, i, c, t, h);
    assert r == n1.(children := n1.children[i := c]);
  }

  /** Replacing a child by a sorted one holding only some of its elements
      keeps shape, bounds and order. */
  lemma {:induction false} SubtreeStep(m: Node, j: nat, c: Node, t: nat, h: nat)
    requires Shaped(m, h) && !m.leaf && j < |m.children| && Bounded(m, t) && Sorted(Inorder(m))
    requires Shaped(c, h - 1) && Bounded(c, t) && Sorted(Inorder(c)) && Within(Inorder(c), Inorder(m.children[j]))
    ensures Kept(m, m.(children := m.children[j := c]), t, h)
  {
    ReplaceInorder(m, j, c);
    var L, M, R := Lead(m.children[..j], m.keys[..j]), Inorder(m.children[j]), Trail(m.children[j + 1..], m.keys[j..]);
    forall x | x in Inorder(c) ensures (forall l :: l in L ==> l <= x) && (forall y :: y in R ==> x <= y) {
      Between(L, M, R, x);
    }
    SortedSwap(L, M, Inorder(c), R);
    ReplaceShape(m, j, c, t, h);
  }

  /** Removing `key` from the one run that can hold it removes it from the
      whole. */
  lemma {:induction false} SubtreeCount(L: seq<int>, M: seq<int>, N: seq<int>, R: seq<int>, key: int)
    requires multiset(N) == multiset(M) - multiset{key}
    requires key in L + M + R ==> key in M
    ensures multiset(L + N + R) == multiset(L + M + R) - multiset{key}
  {
    assert multiset(L + N + R) == multiset(L) + multiset(N) + multiset(R);
    assert multiset(L + M + R) == multiset(L) + multiset(M) + multiset(R);
    assert key in multiset(L) + multiset(M) + multiset(R) ==> key in L + M + R;
    CountSplice(multiset(L), multiset(M), multiset(N), multiset(R), key);
  }

  /** Taking one `key` out of the middle part takes it out of the whole,
      when the middle part is the only one that can hold it. */
  lemma {:induction false} CountSplice(l: multiset<int>, m: multiset<int>, n: multiset<int>, r: multiset<int>, key: int)
    requires n == m - multiset{key}
    requires key in l + m + r ==> key in m
    ensures l + n + r == (l + m + r) - multiset{key}
  {
    forall x ensures (l + n + r)[x] == ((l + m + r) - multiset{key})[x] {
    }
  }

  // ---------------------------------------------------------------------
  // What a deletion keeps, and when it removes exactly the key.

  /** `r` is a well-formed sorted tree of height `h` whose elements all come
      from `n`. */
  predicate Kept(n: Node, r: Node, t: nat, h: nat)
  {
    Shaped(r, h) && Bounded(r, t) && Sorted(Inorder(r)) && Within(Inorder(r), Inorder(n))
  }

  /** The fill under which deletion removes exactly the key: a leaf, or a
      node with a key, whose descendants hold at least `t - 1` keys. */
  predicate Occupied(n: Node, t: nat)
  {
    (n.leaf || |n.keys| >= 1) && MinFilled(n, t)
  }

  /** A deletion that finishes leaves a sorted, well-formed tree of the same
      height that holds nothing new. */
  lemma {:induction false} DeleteKeeps(n: Node, key: int, t: nat, h: nat)
    requires Shaped(n, h) && t >= 1 && Bounded(n, t) && Sorted(Inorder(n))
    ensures Delete(n, key, t, h).Ok? ==> Kept(n, Delete(n, key, t, h).node, t, h)
    decreases h, 2
  {
    var i := Slot(n.keys, key);
    if i < |n.keys| && key == n.keys[i] {
      if n.leaf {
        LeafRemove(n.keys, i);
      } else {
        InternalKeeps(n, i, t, h);
      }
    } else if !n.leaf {
      SubtreeKeeps(n, key, i, t, h);
    }
  }

  lemma {:induction false} InternalKeeps(n: Node, i: nat, t: nat, h: nat)
    requires Shaped(n, h) && !n.leaf && i < |n.keys| && t >= 1 && Bounded(n, t) && Sorted(Inorder(n))
    ensures DeleteInternal(n, i, t, h).Ok? ==> Kept(n, DeleteInternal(n, i, t, h).node, t, h)
    decreases h, 1
  {
    var c0 := n.children[i];
    Descend(n, i, h);
    assert Bounded(c0, t);
    PredecessorLast(c0, h - 1);
    if Predecessor(c0, h - 1).Some? {
      var pred := Predecessor(c0, h - 1).value;
      DeleteKeeps(c0, pred, t, h - 1);
      var d := Delete(c0, pred, t, h - 1);
      if d.Ok? {
        InternalStep(n, i, pred, d.node, t, h);
      }
    }
  }

  lemma {:induction false} SubtreeKeeps(n: Node, key: int, i: nat, t: nat, h: nat)
    requires Shaped(n, h) && !n.leaf && i < |n.children| && t >= 1 && Bounded(n, t) && Sorted(Inorder(n))
    ensures DeleteFromSubtree(n, key, i, t, h).Ok? ==> Kept(n, DeleteFromSubtree(n, key, i, t, h).node, t, h)
    decreases h, 1
  {
    var filled := Refill(n, i, t, h);
    if |n.children[i].keys| < t {
      FillKeeps(n, i, t, h);
    }
    if filled.Ok? {
      var m := filled.node;
      var j := Target(m, i, t);
      if j >= 0 {
        Descend(m, j, h);
        assert Bounded(m.children[j], t);
        DeleteKeeps(m.children[j], key, t, h - 1);
        var d := Delete(m.children[j], key, t, h - 1);
        if d.Ok? {
          SubtreeStep(m, j, d.node, t, h);
        }
      }
    }
  }

  /** Deleting a key the tree does not hold: if the deletion finishes, the
      in-order sequence is unchanged, whatever the fill of the tree. */
  lemma {:induction false} DeleteAbsent(n: Node, key: int, t: nat, h: nat)
    requires Shaped(n, h) && t >= 1 && Bounded(n, t) && key !in Inorder(n)
    ensures Delete(n, key, t, h).Ok? ==> Inorder(Delete(n, key, t, h).node) == Inorder(n)
    decreases h, 2
  {
    var i := Slot(n.keys, key);
    if i < |n.keys| {
      KeysInInorder(n, i);
    }
    if !n.leaf {
      SubtreeAbsent(n, key, i, t, h);
    }
  }

  /** The refill and the descent of `_deleteFromSubtree` for a key the
      subtree does not hold keep the in-order sequence. */
  lemma {:induction false} SubtreeAbsent(n: Node, key: int, i: nat, t: nat, h: nat)
    requires Shaped(n, h) && !n.leaf && i < |n.children| && t >= 1 && Bounded(n, t) && key !in Inorder(n)
    ensures DeleteFromSubtree(n, key, i, t, h).Ok? ==> Inorder(DeleteFromSubtree(n, key, i, t, h).node) == Inorder(n)
    decreases h, 1
  {
    var filled := Refill(n, i, t, h);
    if filled.Ok? {
      RefillKeeps(n, i, t, h);
      var m := filled.node;
      var j := Target(m, i, t);
      if j >= 0 {
        var c := m.children[j];
        ChildAbsent(m, j, key, t, h);
        DeleteAbsent(c, key, t, h - 1);
        var d := Delete(c, key, t, h - 1);
        if d.Ok? {
          SameChild(m, j, d.node);
        }
      }
    }
  }

  /** A refill that finishes keeps the in-order sequence and the bounds. */
  lemma {:induction false} RefillKeeps(n: Node, i: nat, t: nat, h: nat)
    requires Shaped(n, h) && !n.leaf && i < |n.children| && t >= 1 && Bounded(n, t)
    ensures Keeps(n, Refill(n, i, t, h), t)
  {
    if |n.children[i].keys| < t {
      FillKeeps(n, i, t, h);
    }
  }

  /** A child of a node lacking `key` lacks it too, and is shaped and
      bounded one level down. */
  lemma {:induction false} ChildAbsent(m: Node, j: nat, key: int, t: nat, h: nat)
    requires Shaped(m, h) && !m.leaf && j < |m.children| && Bounded(m, t) && key !in Inorder(m)
    ensures Shaped(m.children[j], h - 1) && Bounded(m.children[j], t) && key !in Inorder(m.children[j])
  {
    InorderAt(m, j);
  }

  /** A child replaced by one with the same in-order sequence leaves the
      node's sequence unchanged. */
  lemma {:induction false} SameChild(m: Node, j: nat, c: Node)
    requires !m.leaf && |m.children| == |m.keys| + 1 && j < |m.children|
    requires Inorder(c) == Inorder(m.children[j])
    ensures Inorder(m.(children := m.children[j := c])) == Inorder(m)
  {
    ReplaceInorder(m, j, c);
  }

  /** In an occupied tree with `t >= 2` a deletion finishes and removes one
      occurrence of the key, or nothing when the key is absent. */
  lemma {:induction false} DeleteExact(n: Node, key: int, t: nat, h: nat)
    requires Shaped(n, h) && t >= 2 && Bounded(n, t) && Sorted(Inorder(n)) && Occupied(n, t)
    ensures Delete(n, key, t, h).Ok?
    ensures Keys(Delete(n, key, t, h).node) == Keys(n) - multiset{key}
    decreases h, 2
  {
    var i := Slot(n.keys, key);
    if i < |n.keys| && key == n.keys[i] {
      if n.leaf {
        LeafRemove(n.keys, i);
      } else {
        InternalExact(n, i, t, h);
      }
    } else if !n.leaf {
      SubtreeExact(n, key, i, t, h);
    } else {
      LeafAbsent(n.keys, key);
    }
  }

  lemma {:induction false} InternalExact(n: Node, i: nat, t: nat, h: nat)
    requires Shaped(n, h) && !n.leaf && i < |n.keys| && t >= 2 && Bounded(n, t) && Sorted(Inorder(n))
    requires MinFilled(n, t)
    ensures DeleteInternal(n, i, t, h).Ok?
    ensures Keys(DeleteInternal(n, i, t, h).node) == Keys(n) - multiset{n.keys[i]}
    decreases h, 1
  {
    Descend(n, i, h);
    assert Bounded(n.children[i], t) && MinFilled(n.children[i], t) && |n.children[i].keys| >= t - 1;
    PredecessorExact(n, i, t, h);
  }

  /** Replacing key `i` by the predecessor, the last in-order key of the
      occupied child before it, and deleting that key from the child
      removes exactly one occurrence of key `i`. */
  lemma {:induction false} PredecessorExact(n: Node, i: nat, t: nat, h: nat)
    requires Shaped(n, h) && !n.leaf && i < |n.keys| && t >= 2
    requires Bounded(n.children[i], t) && Sorted(Inorder(n.children[i]))
    requires MinFilled(n.children[i], t) && |n.children[i].keys| >= 1
    ensures DeleteInternal(n, i, t, h).Ok?
    ensures Keys(DeleteInternal(n, i, t, h).node) == Keys(n) - multiset{n.keys[i]}
    decreases h, 0
  {
    var c0 := n.children[i];
    PredecessorSome(c0, h - 1, t);
    PredecessorLast(c0, h - 1);
    var pred := Predecessor(c0, h - 1).value;
    var M := Inorder(c0);
    assert M[|M| - 1] in M;
    DeleteExact(c0, pred, t, h - 1);
    var c := Delete(c0, pred, t, h - 1).node;
    var L, W := Lead(n.children[..i], n.keys[..i]), Weave(n.children[i + 1..], n.keys[i + 1..]);
    InternalCount(L, M, n.keys[i], W, Inorder(c), pred);
    InternalSplit(n, i, c, pred);
  }

  /** In an occupied node the refill succeeds and the child the deletion
      goes on to is occupied and holds what child `i` held. */
  lemma {:induction false} RefillRoute(n: Node, i: nat, t: nat, h: nat)
    requires Shaped(n, h) && !n.leaf && i < |n.children| && t >= 2 && Bounded(n, t)
    requires Occupied(n, t)
    ensures Refill(n, i, t, h).Ok?
    ensures var m := Refill(n, i, t, h).node; var j := Target(m, i, t);
      Inorder(m) == Inorder(n) && Bounded(m, t) &&
      0 <= j < |m.children| && |m.children[j].keys| >= t && MinFilled(m.children[j], t) &&
      Within(Inorder(n.children[i]), Inorder(m.children[j]))
  {
    if |n.children[i].keys| < t {
      FillRoute(n, i, t, h);
      FillKeeps(n, i, t, h);
    }
  }

  lemma {:induction false} SubtreeExact(n: Node, key: int, i: nat, t: nat, h: nat)
    requires Shaped(n, h) && !n.leaf && i < |n.children| && t >= 2 && Bounded(n, t) && Sorted(Inorder(n))
    requires Occupied(n, t) && i == Slot(n.keys, key) && (i == |n.keys| || n.keys[i] != key)
    ensures DeleteFromSubtree(n, key, i, t, h).Ok?
    ensures Keys(DeleteFromSubtree(n, key, i, t, h).node) == Keys(n) - multiset{key}
    decreases h, 1
  {
    SlotChild(n, key);
    RefillRoute(n, i, t, h);
    var m := Refill(n, i, t, h).node;
    var j := Target(m, i, t);
    Descend(m, j, h);
    assert key in Inorder(m) ==> key in Inorder(m.children[j]);
    assert Bounded(m.children[j], t);
    ChildExact(n, key, i, t, h, m, j);
  }

  /** After the refill, deleting from the child the key can only be in
      removes exactly one occurrence from the node. */
  lemma {:induction false} ChildExact(n: Node, key: int, i: nat, t: nat, h: nat, m: Node, j: nat)
    requires Shaped(n, h) && !n.leaf && i < |n.children| && t >= 2
    requires Refill(n, i, t, h) == Ok(m) && j == Target(m, i, t) && j < |m.children|
    requires Inorder(m) == Inorder(n) && Shaped(m, h)
    requires Bounded(m.children[j], t) && Sorted(Inorder(m.children[j]))
    requires |m.children[j].keys| >= t && MinFilled(m.children[j], t)
    requires key in Inorder(m) ==> key in Inorder(m.children[j])
    ensures DeleteFromSubtree(n, key, i, t, h).Ok?
    ensures Keys(DeleteFromSubtree(n, key, i, t, h).node) == Keys(n) - multiset{key}
    decreases h, 0
  {
    var c := ChildDelete(m.children[j], key, t, h - 1);
    ReplaceCount(m, j, c, key);
    SubtreeOk(n, key, i, t, h, m, j, c);
  }

  /** The deletion from an occupied child, with its result named. */
  lemma {:induction false} ChildDelete(c: Node, key: int, t: nat, h: nat) returns (d: Node)
    requires Shaped(c, h) && t >= 2 && Bounded(c, t) && Sorted(Inorder(c)) && Occupied(c, t)
    ensures Delete(c, key, t, h) == Ok(d) && Keys(d) == Keys(c) - multiset{key}
    decreases h, 3
  {
    DeleteExact(c, key, t, h);
    d := Delete(c, key, t, h).node;
  }

  lemma SubtreeOk(n: Node, key: int, i: nat, t: nat, h: nat, m: Node, j: nat, c: Node)
    requires Shaped(n, h) && !n.leaf && i < |n.children| && t >= 1
    requires Refill(n, i, t, h) == Ok(m) && j == Target(m, i, t) && j < |m.children|
    requires Delete(m.children[j], key, t, h - 1) == Ok(c)
    ensures DeleteFromSubtree(n, key, i, t, h) == Ok(m.(children := m.children[j := c]))
  {
  }

  /** Removing `key` from the only child that can hold it removes it from
      the node. */
  lemma {:induction false} ReplaceCount(m: Node, j: nat, c: Node, key: int)
    requires !m.leaf && |m.children| == |m.keys| + 1 && j < |m.children|
    requires Keys(c) == Keys(m.children[j]) - multiset{key}
    requires key in Inorder(m) ==> key in Inorder(m.children[j])
    ensures Keys(m.(children := m.children[j := c])) == Keys(m) - multiset{key}
  {
    ReplaceInorder(m, j, c);
    var L, M, R := Lead(m.children[..j], m.keys[..j]), Inorder(m.children[j]), Trail(m.children[j + 1..], m.keys[j..]);
    SubtreeCount(L, M, Inorder(c), R, key);
  }

  // ---------------------------------------------------------------------
  // The fill is not kept: `_deleteInternalNode` descends without a refill.

  function Leaf(ks: seq<int>): Node
  {
    Node(ks, [], true)
  }

  /** A B-tree of minimum degree 2 and height 2 holding 1 to 7. */
  function Seven(): Node
  {
    Node([4], [Left(), Right()], false)
  }

  function Left(): Node
  {
    Node([2], [Leaf([1]), Leaf([3])], false)
  }

  function Right(): Node
  {
    Node([6], [Leaf([5]), Leaf([7])], false)
  }

  /** `Seven` after deleting 4, and after deleting 3 as well. */
  function SevenLess4(): Node
  {
    Node([3], [Node([], [Leaf([1, 2])], false), Right()], false)
  }

  function SevenLess43(): Node
  {
    Node([2], [Node([], [Leaf([1])], false), Right()], false)
  }

  lemma SevenShapes()
    ensures Shaped(Seven(), 2) && Shaped(SevenLess4(), 2) && Shaped(SevenLess43(), 2)
  {
    assert Shaped(Right(), 1);
    assert Shaped(Seven().children[0], 1);
    assert Shaped(SevenLess4().children[0], 1);
    assert Shaped(SevenLess43().children[0], 1);
  }

  lemma SevenValid()
    ensures Shaped(Seven(), 2) && Bounded(Seven(), 2) && Sorted(Inorder(Seven())) && Occupied(Seven(), 2)
  {
    SevenShapes();
    SevenFill();
    SevenSorted();
  }

  lemma SevenFill()
    ensures Bounded(Seven(), 2) && Occupied(Seven(), 2)
  {
    assert Bounded(Right(), 2) && MinFilled(Right(), 2);
    assert Bounded(Seven().children[0], 2) && MinFilled(Seven().children[0], 2);
  }

  lemma SevenSorted()
    ensures Sorted(Inorder(Seven()))
  {
    var left := Seven().children[0];
    assert Inorder(left) == [1, 2, 3] by {
      assert Weave([Leaf([1])], []) == [1];
    }
    assert Inorder(Right()) == [5, 6, 7] by {
      assert Weave([Leaf([5])], []) == [5];
    }
    assert Weave([left], []) == [1, 2, 3];
    assert Inorder(Seven()) == [1, 2, 3, 4, 5, 6, 7];
  }

  /** Deleting 4: its predecessor 3 is deleted from the left child, which
      merges its two leaves and is left without a key. */
  lemma DeleteFour()
    ensures Shaped(Seven(), 2) && Delete(Seven(), 4, 2, 2) == Ok(SevenLess4())
  {
    SevenShapes();
    var left := Seven().children[0];
    assert Slot([4], 4) == 0;
    assert Predecessor(left, 1) == KV.Some(3);
    DeleteThreeBelow();
    assert Delete(left, 3, 2, 1) == Ok(SevenLess4().children[0]);
    assert Seven().keys[0 := 3] == SevenLess4().keys;
    assert Seven().children[0 := SevenLess4().children[0]] == SevenLess4().children;
    assert DeleteInternal(Seven(), 0, 2, 2) == Ok(SevenLess4());
  }

  lemma DeleteThreeBelow()
    ensures Shaped(Left(), 1)
    ensures Delete(Left(), 3, 2, 1) == Ok(Node([], [Leaf([1, 2])], false))
  {
    SubtreeLeft();
    assert Slot([2], 3) == 1;
  }

  lemma SubtreeLeft()
    ensures Shaped(Left(), 1)
    ensures DeleteFromSubtree(Left(), 3, 1, 2, 1) == Ok(Node([], [Leaf([1, 2])], false))
  {
    RefillLeft();
    assert Target(Merged(), 1, 2) == 0;
    LeafThree();
    assert Merged().children[0 := Leaf([1, 2])] == [Leaf([1, 2])];
  }

  /** The two leaves of `Left` merged around its key. */
  function Merged(): Node
  {
    Node([], [Leaf([1, 2, 3])], false)
  }

  lemma RefillLeft()
    ensures Shaped(Left(), 1) && Refill(Left(), 1, 2, 1) == Ok(Merged())
  {
    assert Shaped(Left(), 1);
    MergeLeft();
    assert Fill(Left(), 1, 2, 1) == Ok(Merge(Left(), 0));
  }

  lemma MergeLeft()
    ensures Merge(Left(), 0) == Merged()
  {
    var left := Left();
    assert left.keys[..0] + left.keys[1..] == [] && left.children[2..] == [];
    assert [1] + [2] + [3] == [1, 2, 3];
  }

  lemma LeafThree()
    ensures Delete(Leaf([1, 2, 3]), 3, 2, 0) == Ok(Leaf([1, 2]))
  {
    assert Shaped(Leaf([1, 2, 3]), 0);
    assert Slot([1, 2, 3], 3) == 2;
    assert [1, 2, 3][..2] + [1, 2, 3][3..] == [1, 2];
  }

  /** Deleting 3: its predecessor 2 comes out of the leaf below the keyless
      child. */
  lemma DeleteThree()
    ensures Shaped(SevenLess4(), 2) && Delete(SevenLess4(), 3, 2, 2) == Ok(SevenLess43())
  {
    SevenShapes();
    var left := SevenLess4().children[0];
    assert Slot([3], 3) == 0;
    assert Predecessor(left, 1) == KV.Some(2);
    assert Slot([], 2) == 0;
    assert Refill(left, 0, 2, 1) == Ok(left);
    assert Target(left, 0, 2) == 0;
    assert Slot([1, 2], 2) == 1;
    assert Delete(Leaf([1, 2]), 2, 2, 0) == Ok(Leaf([1]));
    assert Delete(left, 2, 2, 1) == Ok(SevenLess43().children[0]);
  }

  /** Deleting 2: the refill of the only child of the keyless node has no
      sibling to merge with. */
  lemma DeleteTwo()
    ensures Shaped(SevenLess43(), 2) && Delete(SevenLess43(), 2, 2, 2) == Failed(UndefinedChild)
  {
    SevenShapes();
    var left := SevenLess43().children[0];
    assert Slot([2], 2) == 0;
    assert Predecessor(left, 1) == KV.Some(1);
    assert Slot([], 1) == 0;
    assert Fill(left, 0, 2, 1) == Failed(UndefinedChild);
    assert Delete(left, 1, 2, 1) == Failed(UndefinedChild);
  }

  /** A delete from an occupied tree can leave it unoccupied, and later
      deletes of present keys then reach `_merge(node, -1)`. */
  lemma DeleteLosesFill()
    ensures Shaped(Seven(), 2) && Bounded(Seven(), 2) && Sorted(Inorder(Seven())) && Occupied(Seven(), 2)
    ensures Shaped(SevenLess4(), 2) && Shaped(SevenLess43(), 2)
    ensures Delete(Seven(), 4, 2, 2) == Ok(SevenLess4()) && !Occupied(SevenLess4(), 2)
    ensures Delete(SevenLess4(), 3, 2, 2) == Ok(SevenLess43())
    ensures Delete(SevenLess43(), 2, 2, 2) == Failed(UndefinedChild)
  {
    SevenValid();
    SevenShapes();
    DeleteFour();
    DeleteThree();
    DeleteTwo();
  }
}
