/**
 * Insertion into the B-tree: `_splitChild` and `_insertNonFull` of
 * `Btree/btree.js`, and the sorted insertion they add up to.
 */
module BtreeInsert {
  import opened BtreeNodes

  /** Inserting `key` into a sorted sequence after every element not above
      it: where the shift loop of `_insertNonFull` stops. */
  function InsertSorted(s: seq<int>, key: int): (r: seq<int>)
    ensures |r| == |s| + 1
    ensures multiset(r) == multiset(s) + multiset{key}
    ensures Sorted(s) ==> Sorted(r)
  {
    if s == [] || key < s[0] then
      InsertFront(s, key);
      [key] + s
    else
      var rest := InsertSorted(s[1..], key);
      InsertAfterHead(s, key, rest);
      [s[0]] + rest
  }

  lemma InsertFront(s: seq<int>, key: int)
    requires s == [] || key < s[0]
    ensures Sorted(s) ==> Sorted([key] + s)
  {
    if Sorted(s) {
      SortedAround([], s);
      SortedJoin([key], s);
    }
  }

  lemma InsertAfterHead(s: seq<int>, key: int, rest: seq<int>)
    requires s != [] && !(key < s[0])
    requires multiset(rest) == multiset(s[1..]) + multiset{key}
    requires Sorted(s[1..]) ==> Sorted(rest)
    ensures multiset([s[0]] + rest) == multiset(s) + multiset{key}
    ensures Sorted(s) ==> Sorted([s[0]] + rest)
  {
    assert s == [s[0]] + s[1..];
    if Sorted(s) {
      SortedParts([s[0]], s[1..], []);
      assert forall y :: y in rest ==> y in s[1..] || y == key by {
        forall y | y in rest ensures y in s[1..] || y == key {
          assert y in multiset(rest);
        }
      }
      SortedJoin([s[0]], rest);
    }
  }

  /** A sorted sequence is fixed by its multiset. */
  lemma {:induction false} SortedUnique(a: seq<int>, b: seq<int>)
    requires Sorted(a) && Sorted(b) && multiset(a) == multiset(b)
    ensures a == b
    decreases |a|
  {
    if a != [] {
      assert |b| == |multiset(b)| == |a|;
      assert a[0] in multiset(b) && b[0] in multiset(a);
      var i :| 0 <= i < |a| && a[i] == b[0];
      var j :| 0 <= j < |b| && b[j] == a[0];
      assert a[0] <= a[i] && b[0] <= b[j];
      assert a[0] == b[0];
      MultisetTail(a, b);
      SortedTail(a);
      SortedTail(b);
      SortedUnique(a[1..], b[1..]);
    }
  }

  lemma MultisetTail(a: seq<int>, b: seq<int>)
    requires a != [] && b != [] && a[0] == b[0] && multiset(a) == multiset(b)
    ensures multiset(a[1..]) == multiset(b[1..])
  {
    assert a == [a[0]] + a[1..] && b == [b[0]] + b[1..];
    var A, B := multiset(a[1..]), multiset(b[1..]);
    assert multiset(a) == multiset{a[0]} + A;
    assert multiset(b) == multiset{a[0]} + B;
    forall z ensures A[z] == B[z] {
      assert multiset(a)[z] == multiset{a[0]}[z] + A[z];
      assert multiset(b)[z] == multiset{a[0]}[z] + B[z];
    }
  }

  lemma SortedTail(a: seq<int>)
    requires Sorted(a) && a != []
    ensures Sorted(a[1..])
  {
    forall p, q | 0 <= p < q < |a[1..]| ensures a[1..][p] <= a[1..][q] {
      assert a[1..][p] == a[p + 1] && a[1..][q] == a[q + 1];
    }
  }

  /** Replacing the middle run of a sorted sequence by a sorted run whose
      elements fit between the outer runs keeps it sorted. */
  lemma {:induction false} SortedSwap(L: seq<int>, M: seq<int>, N: seq<int>, R: seq<int>)
    requires Sorted(L + M + R) && Sorted(N)
    requires forall x :: x in N ==> (forall l :: l in L ==> l <= x) && (forall y :: y in R ==> x <= y)
    ensures Sorted(L + N + R)
  {
    SortedParts(L, M, R);
    SortedJoin(L, N);
    forall x, y | x in L + N && y in R ensures x <= y {
      if x in L {
        if R != [] {
          assert R[0] in M + R;
        }
        assert y in M + R;
      }
    }
    SortedJoin(L + N, R);
  }

  /** A subtree or key the in-order sequence passes through lies between
      the runs before and after it. */
  lemma {:induction false} Between(L: seq<int>, M: seq<int>, R: seq<int>, x: int)
    requires Sorted(L + M + R) && x in M
    ensures forall l :: l in L ==> l <= x
    ensures forall y :: y in R ==> x <= y
  {
    SortedParts(L, M, R);
    assert x in M + R && x in L + M;
  }

  /** `_splitChild(parent, i)`: the full child `i` keeps its first `t - 1`
      keys (and `t` children), a new sibling after it takes the last `t - 1`
      keys (and `t` children), and the median key moves up to position `i`
      of the parent. */
  function SplitChild(parent: Node, i: nat, t: nat): (r: Node)
    requires !parent.leaf && |parent.children| == |parent.keys| + 1 && i < |parent.children|
    requires t >= 1 && |parent.children[i].keys| == 2 * t - 1
    ensures !r.leaf && |r.children| == |r.keys| + 1 && |r.keys| == |parent.keys| + 1
    ensures r.keys[..i] == parent.keys[..i] && r.keys[i + 1..] == parent.keys[i..]
    ensures r.keys[i] == parent.children[i].keys[t - 1]
    ensures r.children[..i] == parent.children[..i] && r.children[i + 2..] == parent.children[i + 1..]
    ensures r.children[i].keys == parent.children[i].keys[..t - 1]
    ensures r.children[i + 1].keys == parent.children[i].keys[t..]
    ensures r.children[i].leaf == r.children[i + 1].leaf == parent.children[i].leaf
    ensures !parent.children[i].leaf && |parent.children[i].children| == 2 * t ==>
      r.children[i].children == parent.children[i].children[..t] &&
      r.children[i + 1].children == parent.children[i].children[t..]
  {
    var y := parent.children[i];
    var z := Node(y.keys[t..], if y.leaf || |y.children| < t then [] else y.children[t..], y.leaf);
    var y' := Node(y.keys[..t - 1], if y.leaf || |y.children| < t then y.children else y.children[..t], y.leaf);
    var r := Node(parent.keys[..i] + [y.keys[t - 1]] + parent.keys[i..],
                  parent.children[..i] + [y', z] + parent.children[i + 1..], parent.leaf);
    assert r.children[..i] == parent.children[..i];
    assert r.children[i + 2..] == parent.children[i + 1..];
    assert r.keys[..i] == parent.keys[..i] && r.keys[i + 1..] == parent.keys[i..];
    r
  }

  /** The split halves of a full child and its median make up the child's
      in-order sequence. */
  lemma {:induction false} SplitHalves(y: Node, t: nat, h: nat)
    requires Shaped(y, h) && t >= 1 && |y.keys| == 2 * t - 1
    ensures
      var y' := Node(y.keys[..t - 1], if y.leaf || |y.children| < t then y.children else y.children[..t], y.leaf);
      var z := Node(y.keys[t..], if y.leaf || |y.children| < t then [] else y.children[t..], y.leaf);
      Inorder(y) == Inorder(y') + [y.keys[t - 1]] + Inorder(z)
  {
    assert y.keys == y.keys[..t - 1] + [y.keys[t - 1]] + y.keys[t..];
    if !y.leaf {
      assert y.children == y.children[..t] + y.children[t..];
      WeaveJoin(y.children[..t], y.children[t..], y.keys[..t - 1], y.keys[t - 1], y.keys[t..]);
    }
  }

  /** Splitting a full child keeps the parent's in-order sequence, its
      shape and its bounds, and leaves both halves at least `t - 1` keys. */
  lemma {:induction false} SplitChildKeeps(parent: Node, i: nat, t: nat, h: nat)
    requires Shaped(parent, h) && !parent.leaf && i < |parent.children|
    requires t >= 1 && |parent.children[i].keys| == 2 * t - 1
    requires Bounded(parent, t) && |parent.keys| < 2 * t - 1
    ensures Inorder(SplitChild(parent, i, t)) == Inorder(parent)
    ensures Shaped(SplitChild(parent, i, t), h) && Bounded(SplitChild(parent, i, t), t)
    ensures MinFilled(parent, t) ==> MinFilled(SplitChild(parent, i, t), t)
  {
    SplitInorder(parent, i, t, h);
    SplitShape(parent, i, t, h);
    if MinFilled(parent, t) {
      SplitMinFilled(parent, i, t, h);
    }
  }

  lemma {:induction false} SplitInorder(parent: Node, i: nat, t: nat, h: nat)
    requires Shaped(parent, h) && !parent.leaf && i < |parent.children|
    requires t >= 1 && |parent.children[i].keys| == 2 * t - 1
    ensures Inorder(SplitChild(parent, i, t)) == Inorder(parent)
  {
    var y := parent.children[i];
    var r := SplitChild(parent, i, t);
    var P, Q, X, Y := parent.children[..i], parent.children[i + 1..], parent.keys[..i], parent.keys[i..];
    assert Shaped(y, h - 1);
    SplitHalves(y, t, h - 1);
    var y', z := r.children[i], r.children[i + 1];
    SplitParts(parent, i, t);
    WeaveAround2(P, y', y.keys[t - 1], z, Q, X, Y);
    InorderAt(parent, i);
    Regroup(Lead(P, X), Inorder(y'), [y.keys[t - 1]], Inorder(z), Trail(Q, Y));
  }

  /** The children and keys of the split node: the runs around child `i`,
      with the two halves and the median in its place. */
  lemma SplitParts(parent: Node, i: nat, t: nat)
    requires !parent.leaf && |parent.children| == |parent.keys| + 1 && i < |parent.children|
    requires t >= 1 && |parent.children[i].keys| == 2 * t - 1
    ensures var r := SplitChild(parent, i, t);
      var P, Q, X, Y := parent.children[..i], parent.children[i + 1..], parent.keys[..i], parent.keys[i..];
      r.children == P + [r.children[i], r.children[i + 1]] + Q && r.keys == X + [parent.children[i].keys[t - 1]] + Y
  {
    var r := SplitChild(parent, i, t);
    var P, Q, X, Y := parent.children[..i], parent.children[i + 1..], parent.keys[..i], parent.keys[i..];
    assert r.children == r.children[..i] + [r.children[i], r.children[i + 1]] + r.children[i + 2..];
    assert r.keys == r.keys[..i] + [r.keys[i]] + r.keys[i + 1..];
  }

  lemma {:induction false} SplitShape(parent: Node, i: nat, t: nat, h: nat)
    requires Shaped(parent, h) && !parent.leaf && i < |parent.children|
    requires t >= 1 && |parent.children[i].keys| == 2 * t - 1
    requires Bounded(parent, t) && |parent.keys| < 2 * t - 1
    ensures Shaped(SplitChild(parent, i, t), h) && Bounded(SplitChild(parent, i, t), t)
  {
    var y := parent.children[i];
    var r := SplitChild(parent, i, t);
    assert Shaped(y, h - 1) && Bounded(y, t);
    forall j | 0 <= j < |r.children| ensures Shaped(r.children[j], h - 1) && Bounded(r.children[j], t) {
      if j < i {
        assert r.children[j] == parent.children[j];
      } else if j > i + 1 {
        assert r.children[j] == parent.children[j - 1];
      } else if !y.leaf {
        var c := r.children[j];
        forall k | 0 <= k < |c.children| ensures Shaped(c.children[k], h - 2) && Bounded(c.children[k], t) {
          assert c.children[k] == y.children[if j == i then k else t + k];
        }
      }
    }
  }

  lemma {:induction false} SplitMinFilled(parent: Node, i: nat, t: nat, h: nat)
    requires Shaped(parent, h) && !parent.leaf && i < |parent.children|
    requires t >= 1 && |parent.children[i].keys| == 2 * t - 1
    requires MinFilled(parent, t)
    ensures MinFilled(SplitChild(parent, i, t), t)
  {
    var y := parent.children[i];
    var r := SplitChild(parent, i, t);
    assert MinFilled(y, t);
    forall j | 0 <= j < |r.children| ensures |r.children[j].keys| >= t - 1 && MinFilled(r.children[j], t) {
      if j < i {
        assert r.children[j] == parent.children[j];
      } else if j > i + 1 {
        assert r.children[j] == parent.children[j - 1];
      } else {
        var c := r.children[j];
        forall k | 0 <= k < |c.children| ensures |c.children[k].keys| >= t - 1 && MinFilled(c.children[k], t) {
          assert c.children[k] == y.children[if j == i then k else t + k];
        }
      }
    }
  }

  /** `_insertNonFull(node, key)` on a node with room for one more key:
      a leaf shifts its larger keys up by one and takes `key` in the gap;
      an internal node finds the child `key` belongs to, splits it first if
      it is full, and inserts there.  The result is sorted again and holds
      `key` once more than `node` did. */
  method InsertNonFull(node: Node, key: int, t: nat, ghost h: nat) returns (r: Node)
    requires Shaped(node, h) && Bounded(node, t) && Sorted(Inorder(node))
    requires t >= 1 && |node.keys| < 2 * t - 1
    ensures Shaped(r, h) && Bounded(r, t) && Sorted(Inorder(r))
    ensures multiset(Inorder(r)) == multiset(Inorder(node)) + multiset{key}
    ensures r.leaf == node.leaf && |r.keys| >= |node.keys| && (node.leaf ==> |r.keys| == |node.keys| + 1)
    ensures MinFilled(node, t) ==> MinFilled(r, t)
    decreases h
  {
    KeysSorted(node);
    if node.leaf {
      var ks := ShiftIn(node.keys, key);
      r := node.(keys := ks);
    } else {
      var n, i := ChildFor(node, key, t, h);
      var c := n.children[i];
      Descend(n, i, h);
      var c' := InsertNonFull(c, key, t, h - 1);
      r := n.(children := n.children[i := c']);
      ReplaceChild(n, i, c', key, t, h);
    }
  }

  /** The internal case of `_insertNonFull` up to the recursive call: scan
      from the last key down to the child `key` belongs in, and split that
      child first when it is full, stepping past the new median when `key`
      is above it.  The chosen child has room, and `key` fits between the
      keys around it. */
  method ChildFor(node: Node, key: int, t: nat, ghost h: nat) returns (n: Node, i: nat)
    requires Shaped(node, h) && !node.leaf && Bounded(node, t)
    requires t >= 1 && |node.keys| < 2 * t - 1
    ensures Descent(node, n, i, key, t, h)
  {
    i := ScanDown(node.keys, key);
    n := node;
    if |n.children[i].keys| == 2 * t - 1 {
      ghost var n', i' := SplitChoice(node, i, key, t, h);
      n := SplitChild(node, i, t);
      if key > n.keys[i] {
        i := i + 1;
      }
      assert n == n' && i == i';
    } else {
      KeepChoice(node, i, key, t, h);
    }
  }

  /** `n` is `node` with at most one child split, well formed and with the
      same keys in order, and its child `i` has room and lies where `key`
      belongs. */
  predicate Descent(node: Node, n: Node, i: nat, key: int, t: nat, h: nat)
  {
    Shaped(n, h) && !n.leaf && Bounded(n, t) && Inorder(n) == Inorder(node) &&
    (MinFilled(node, t) ==> MinFilled(n, t)) &&
    |n.keys| >= |node.keys| && i < |n.children| && |n.children[i].keys| < 2 * t - 1 &&
    (i > 0 ==> n.keys[i - 1] <= key) && (i < |n.keys| ==> key <= n.keys[i])
  }

  /** The scan from the last key down: the first position whose key is not
      above `key`, plus one. */
  method ScanDown(keys: seq<int>, key: int) returns (i: nat)
    ensures i <= |keys| && (i > 0 ==> keys[i - 1] <= key) && (i < |keys| ==> key <= keys[i])
  {
    var j := |keys| - 1;
    while j >= 0 && key < keys[j]
      invariant -1 <= j < |keys|
      invariant j + 1 < |keys| ==> key < keys[j + 1]
    {
      j := j - 1;
    }
    i := j + 1;
  }

  /** The child the scan found has room: descend into it. */
  lemma {:induction false} KeepChoice(node: Node, i: nat, key: int, t: nat, h: nat)
    requires Shaped(node, h) && !node.leaf && Bounded(node, t) && i <= |node.keys|
    requires i > 0 ==> node.keys[i - 1] <= key
    requires i < |node.keys| ==> key <= node.keys[i]
    requires |node.children[i].keys| != 2 * t - 1
    ensures Descent(node, node, i, key, t, h)
  {
    assert Bounded(node.children[i], t);
  }

  /** The child the scan found is full: after the split, descend left of
      the new median or, when `key` is above it, right of it. */
  lemma {:induction false} SplitChoice(node: Node, i: nat, key: int, t: nat, h: nat) returns (n: Node, i': nat)
    requires Shaped(node, h) && !node.leaf && Bounded(node, t)
    requires t >= 1 && |node.keys| < 2 * t - 1 && i <= |node.keys|
    requires i > 0 ==> node.keys[i - 1] <= key
    requires i < |node.keys| ==> key <= node.keys[i]
    requires |node.children[i].keys| == 2 * t - 1
    ensures n == SplitChild(node, i, t) && i' == (if key > n.keys[i] then i + 1 else i)
    ensures Descent(node, n, i', key, t, h)
  {
    SplitChildKeeps(node, i, t, h);
    n := SplitChild(node, i, t);
    i' := if key > n.keys[i] then i + 1 else i;
    if key > n.keys[i] {
      assert i + 1 < |n.keys| ==> n.keys[i + 1] == node.keys[i];
    } else {
      assert i > 0 ==> n.keys[i - 1] == node.keys[i - 1];
    }
  }

  /** The leaf case of `_insertNonFull`: the keys above `key` move up one
      place from the end, and `key` fills the gap. */
  method ShiftIn(keys: seq<int>, key: int) returns (ks: seq<int>)
    ensures |ks| == |keys| + 1
    ensures Sorted(keys) ==> ks == InsertSorted(keys, key)
  {
    ks := keys + [0];
    var i := |keys| - 1;
    while i >= 0 && key < ks[i]
      invariant -1 <= i < |keys| && |ks| == |keys| + 1
      invariant forall j :: 0 <= j <= i ==> ks[j] == keys[j]
      invariant forall j :: i + 2 <= j < |ks| ==> ks[j] == keys[j - 1]
      invariant forall j :: i < j < |keys| ==> key < keys[j]
    {
      ks := ks[i + 1 := ks[i]];
      i := i - 1;
    }
    var p := i + 1;
    ks := ks[p := key];
    ShiftedRun(ks, keys, p, key);
    if Sorted(keys) {
      InsertAtGap(keys, p, key);
    }
  }

  /** `key` placed after the keys not above it and before the ones above it
      is the sorted insertion. */
  lemma {:induction false} InsertAtGap(keys: seq<int>, p: nat, key: int)
    requires Sorted(keys) && p <= |keys|
    requires p > 0 ==> keys[p - 1] <= key
    requires forall j :: p <= j < |keys| ==> key < keys[j]
    ensures keys[..p] + [key] + keys[p..] == InsertSorted(keys, key)
  {
    MultisetInsertAt(keys, p, key);
    InsertInRun(keys, p, key);
    SortedUnique(keys[..p] + [key] + keys[p..], InsertSorted(keys, key));
  }

  /** The leaf step: the gap sits after the keys not above `key`. */
  lemma {:induction false} InsertInRun(ks: seq<int>, p: nat, key: int)
    requires Sorted(ks) && p <= |ks|
    requires p > 0 ==> ks[p - 1] <= key
    requires forall j :: p <= j < |ks| ==> key < ks[j]
    ensures Sorted(ks[..p] + [key] + ks[p..])
  {
    var r := ks[..p] + [key] + ks[p..];
    forall i, j | 0 <= i < j < |r| ensures r[i] <= r[j] {
      if j < p {
        assert r[i] == ks[i] && r[j] == ks[j];
      } else if j == p {
        assert r[i] == ks[i] && ks[i] <= ks[p - 1];
      } else if i < p {
        assert r[i] == ks[i] && r[j] == ks[j - 1];
      } else if i == p {
        assert r[j] == ks[j - 1];
      } else {
        assert r[i] == ks[i - 1] && r[j] == ks[j - 1];
      }
    }
  }

  /** What the shift loop leaves: the keys before the gap, `key`, and the
      keys after it. */
  lemma {:induction false} ShiftedRun(ks: seq<int>, keys: seq<int>, p: nat, key: int)
    requires p <= |keys| && |ks| == |keys| + 1 && ks[p] == key
    requires forall j :: 0 <= j < p ==> ks[j] == keys[j]
    requires forall j :: p < j < |ks| ==> ks[j] == keys[j - 1]
    ensures ks == keys[..p] + [key] + keys[p..]
  {
    var r := keys[..p] + [key] + keys[p..];
    forall j | 0 <= j < |ks| ensures ks[j] == r[j] {
      if j > p {
        assert r[j] == keys[j - 1];
      }
    }
  }

  lemma {:induction false} MultisetInsertAt(ks: seq<int>, p: nat, key: int)
    requires p <= |ks|
    ensures multiset(ks[..p] + [key] + ks[p..]) == multiset(ks) + multiset{key}
  {
    assert ks == ks[..p] + ks[p..];
  }

  /** The child the descent picks is sorted and shaped. */
  lemma {:induction false} Descend(n: Node, i: nat, h: nat)
    requires Shaped(n, h) && !n.leaf && i < |n.children| && Sorted(Inorder(n))
    ensures Shaped(n.children[i], h - 1) && Sorted(Inorder(n.children[i]))
  {
    InorderAt(n, i);
    var L, M, R := Lead(n.children[..i], n.keys[..i]), Inorder(n.children[i]), Trail(n.children[i + 1..], n.keys[i..]);
    SortedParts(L, M, R);
  }

  /** Putting back the child with `key` added: the bounds around the child
      admit `key`, so the node stays sorted and gains exactly `key`. */
  lemma {:induction false} ReplaceChild(n: Node, i: nat, c': Node, key: int, t: nat, h: nat)
    requires Shaped(n, h) && !n.leaf && i < |n.children| && Sorted(Inorder(n)) && Bounded(n, t)
    requires i > 0 ==> n.keys[i - 1] <= key
    requires i < |n.keys| ==> key <= n.keys[i]
    requires Shaped(c', h - 1) && Bounded(c', t) && Sorted(Inorder(c'))
    requires multiset(Inorder(c')) == multiset(Inorder(n.children[i])) + multiset{key}
    requires |c'.keys| >= |n.children[i].keys| && (MinFilled(n, t) ==> MinFilled(c', t))
    ensures var r := n.(children := n.children[i := c']);
      Shaped(r, h) && Bounded(r, t) && Sorted(Inorder(r)) &&
      multiset(Inorder(r)) == multiset(Inorder(n)) + multiset{key} &&
      (MinFilled(n, t) ==> MinFilled(r, t))
  {
    ReplaceSorted(n, i, c', key, h);
    ReplaceKeys(n, i, c', key);
    ReplaceShape(n, i, c', t, h);
    ReplaceKeepsFill(n, i, c', t);
  }

  lemma {:induction false} ReplaceSorted(n: Node, i: nat, c': Node, key: int, h: nat)
    requires Shaped(n, h) && !n.leaf && i < |n.children| && Sorted(Inorder(n))
    requires i > 0 ==> n.keys[i - 1] <= key
    requires i < |n.keys| ==> key <= n.keys[i]
    requires Sorted(Inorder(c')) && multiset(Inorder(c')) == multiset(Inorder(n.children[i])) + multiset{key}
    ensures Sorted(Inorder(n.(children := n.children[i := c'])))
  {
    ReplaceInorder(n, i, c');
    var L, M, R := Lead(n.children[..i], n.keys[..i]), Inorder(n.children[i]), Trail(n.children[i + 1..], n.keys[i..]);
    if i > 0 {
      MembersOfLead(n.children[..i], n.keys[..i]);
    }
    if i < |n.keys| {
      MembersOfTrail(n.children[i + 1..], n.keys[i..]);
    }
    InsertBetween(L, M, Inorder(c'), R, key);
  }

  lemma {:induction false} ReplaceKeys(n: Node, i: nat, c': Node, key: int)
    requires !n.leaf && |n.children| == |n.keys| + 1 && i < |n.children|
    requires multiset(Inorder(c')) == multiset(Inorder(n.children[i])) + multiset{key}
    ensures multiset(Inorder(n.(children := n.children[i := c']))) == multiset(Inorder(n)) + multiset{key}
  {
    ReplaceInorder(n, i, c');
    var L, M, R := Lead(n.children[..i], n.keys[..i]), Inorder(n.children[i]), Trail(n.children[i + 1..], n.keys[i..]);
    MultisetSwap(L, M, Inorder(c'), R, key);
  }

  /** The in-order sequences of a node before and after its child `i` is
      replaced. */
  lemma {:induction false} ReplaceInorder(n: Node, i: nat, c': Node)
    requires !n.leaf && |n.children| == |n.keys| + 1 && i < |n.children|
    ensures var r := n.(children := n.children[i := c']);
      Inorder(n) == Lead(n.children[..i], n.keys[..i]) + Inorder(n.children[i]) + Trail(n.children[i + 1..], n.keys[i..]) &&
      Inorder(r) == Lead(n.children[..i], n.keys[..i]) + Inorder(c') + Trail(n.children[i + 1..], n.keys[i..])
  {
    var r := n.(children := n.children[i := c']);
    assert r.children[..i] == n.children[..i] && r.children[i + 1..] == n.children[i + 1..];
    InorderAt(n, i);
    InorderAt(r, i);
  }

  /** A sorted run holding the middle run's elements and `key` replaces the
      middle run when `key` fits between the outer runs. */
  lemma {:induction false} InsertBetween(L: seq<int>, M: seq<int>, N: seq<int>, R: seq<int>, key: int)
    requires Sorted(L + M + R) && Sorted(N) && multiset(N) == multiset(M) + multiset{key}
    requires L != [] ==> L[|L| - 1] <= key
    requires R != [] ==> key <= R[0]
    ensures Sorted(L + N + R)
  {
    assert L + M + R == L + (M + R);
    SortedAround(L, M + R);
    assert L + M + R == (L + M) + R;
    SortedAround(L + M, R);
    forall x | x in N ensures (forall l :: l in L ==> l <= x) && (forall y :: y in R ==> x <= y) {
      assert x in multiset(N);
      if x != key {
        assert x in M;
        Between(L, M, R, x);
      }
    }
    SortedSwap(L, M, N, R);
  }

  lemma {:induction false} MultisetSwap(L: seq<int>, M: seq<int>, N: seq<int>, R: seq<int>, key: int)
    requires multiset(N) == multiset(M) + multiset{key}
    ensures multiset(L + N + R) == multiset(L + M + R) + multiset{key}
  {
  }

  /** Replacing a child by one of the same height and within bounds keeps
      the node's shape and bounds. */
  lemma {:induction false} ReplaceShape(n: Node, i: nat, c': Node, t: nat, h: nat)
    requires Shaped(n, h) && !n.leaf && i < |n.children| && Bounded(n, t)
    requires Shaped(c', h - 1) && Bounded(c', t)
    ensures var r := n.(children := n.children[i := c']);
      Shaped(r, h) && Bounded(r, t)
  {
    var r := n.(children := n.children[i := c']);
    forall j | 0 <= j < |r.children| ensures Shaped(r.children[j], h - 1) && Bounded(r.children[j], t) {
      if j != i {
        assert r.children[j] == n.children[j];
      }
    }
  }

  lemma {:induction false} ReplaceKeepsFill(n: Node, i: nat, c': Node, t: nat)
    requires i < |n.children| && |c'.keys| >= |n.children[i].keys| && (MinFilled(n, t) ==> MinFilled(c', t))
    ensures MinFilled(n, t) ==> MinFilled(n.(children := n.children[i := c']), t)
  {
    if MinFilled(n, t) {
      assert MinFilled(n.children[i], t) && |n.children[i].keys| >= t - 1;
      ReplaceFill(n, i, c', t);
    }
  }

  /** Replacing a child by one that is filled as well keeps the fill. */
  lemma {:induction false} ReplaceFill(n: Node, i: nat, c': Node, t: nat)
    requires i < |n.children| && MinFilled(n, t) && MinFilled(c', t) && |c'.keys| >= t - 1
    ensures MinFilled(n.(children := n.children[i := c']), t)
  {
    var r := n.(children := n.children[i := c']);
    forall j | 0 <= j < |r.children| ensures |r.children[j].keys| >= t - 1 && MinFilled(r.children[j], t) {
      if j != i {
        assert r.children[j] == n.children[j];
      }
    }
  }
}
