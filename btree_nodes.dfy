/**
 * The nodes of the B-tree of `Btree/btree.js` (minimum degree `t`), their
 * shape invariants and their in-order key sequence, the one `traverse`
 * returns.  Nodes are values: a tree shares no node between two parents,
 * so replacing a subtree stands for updating it in place.
 */
module BtreeNodes {

  /** `BTreeNode`: keys, child pointers and the leaf flag. */
  datatype Node = Node(keys: seq<int>, children: seq<Node>, leaf: bool)

  /** Every leaf is at depth `h`, and an internal node has one child more
      than it has keys. */
  predicate Shaped(n: Node, h: nat)
    decreases n
  {
    (n.leaf <==> h == 0) &&
    if n.leaf then n.children == []
    else |n.children| == |n.keys| + 1 && forall i :: 0 <= i < |n.children| ==> Shaped(n.children[i], h - 1)
  }

  /** No node holds more than `2t - 1` keys. */
  predicate Bounded(n: Node, t: nat)
    decreases n
  {
    |n.keys| <= 2 * t - 1 && forall i :: 0 <= i < |n.children| ==> Bounded(n.children[i], t)
  }

  /** Every node below `n` holds at least `t - 1` keys. */
  predicate MinFilled(n: Node, t: nat)
    decreases n
  {
    forall i :: 0 <= i < |n.children| ==> |n.children[i].keys| >= t - 1 && MinFilled(n.children[i], t)
  }

  predicate Sorted(s: seq<int>)
  {
    forall i, j :: 0 <= i < j < |s| ==> s[i] <= s[j]
  }

  /** The in-order key sequence: a leaf's keys, or the children's sequences
      with the node's keys between them. */
  function Inorder(n: Node): seq<int>
    decreases n, 1
  {
    if n.leaf || |n.children| != |n.keys| + 1 then n.keys else Weave(n.children, n.keys)
  }

  /** The keys of the subtree with their multiplicities. */
  function Keys(n: Node): multiset<int>
  {
    multiset(Inorder(n))
  }

  /** `cs[0], ks[0], cs[1], ..., ks[m-1], cs[m]`, each child as its in-order
      sequence. */
  function Weave(cs: seq<Node>, ks: seq<int>): seq<int>
    requires |cs| == |ks| + 1
    decreases cs, 0
  {
    if ks == [] then Inorder(cs[0])
    else Weave(cs[..|cs| - 1], ks[..|ks| - 1]) + [ks[|ks| - 1]] + Inorder(cs[|cs| - 1])
  }

  /** The children of `P` each followed by its key in `X`. */
  function Lead(P: seq<Node>, X: seq<int>): seq<int>
    requires |P| == |X|
  {
    if X == [] then [] else Weave(P, X[..|X| - 1]) + [X[|X| - 1]]
  }

  /** The children of `Q` each preceded by its key in `Y`. */
  function Trail(Q: seq<Node>, Y: seq<int>): seq<int>
    requires |Q| == |Y|
  {
    if Y == [] then [] else [Y[0]] + Weave(Q, Y[1..])
  }

  /** The last step of `Weave`. */
  lemma {:induction false} WeaveLast(cs: seq<Node>, ks: seq<int>)
    requires |cs| == |ks| + 1 && ks != []
    ensures Weave(cs, ks) == Weave(cs[..|cs| - 1], ks[..|ks| - 1]) + [ks[|ks| - 1]] + Inorder(cs[|cs| - 1])
  {
  }

  /** Weaving two runs with one key between them. */
  lemma {:induction false} WeaveJoin(A: seq<Node>, B: seq<Node>, X: seq<int>, k: int, Y: seq<int>)
    requires |A| == |X| + 1 && |B| == |Y| + 1
    ensures Weave(A + B, X + [k] + Y) == Weave(A, X) + [k] + Weave(B, Y)
    decreases |Y|
  {
    var cs, ks := A + B, X + [k] + Y;
    if Y == [] {
      assert cs[..|cs| - 1] == A && ks[..|ks| - 1] == X;
      assert cs[|cs| - 1] == B[0];
    } else {
      var n := |Y| - 1;
      assert cs[..|cs| - 1] == A + B[..n + 1] && ks[..|ks| - 1] == X + [k] + Y[..n];
      assert cs[|cs| - 1] == B[n + 1] && ks[|ks| - 1] == Y[n];
      assert B[..|B| - 1] == B[..n + 1] && Y[..|Y| - 1] == Y[..n];
      WeaveJoin(A, B[..n + 1], X, k, Y[..n]);
      WeaveLast(cs, ks);
      WeaveLast(B, Y);
      Rejoin(Weave(cs, ks), Weave(cs[..|cs| - 1], ks[..|ks| - 1]), Weave(A, X), [k], Weave(B[..n + 1], Y[..n]),
        [Y[n]], Inorder(B[n + 1]), Weave(B, Y));
    }
  }

  /** Regrouping a run whose front is known in pieces. */
  lemma Rejoin<T>(w: seq<T>, p: seq<T>, a: seq<T>, k: seq<T>, b: seq<T>, m: seq<T>, e: seq<T>, q: seq<T>)
    requires w == p + m + e && p == a + k + b && q == b + m + e
    ensures w == a + k + q
  {
  }

  /** A last child after a run. */
  lemma {:induction false} WeaveSnoc(P: seq<Node>, c: Node, X: seq<int>)
    requires |P| == |X|
    ensures Weave(P + [c], X) == Lead(P, X) + Inorder(c)
  {
    if X != [] {
      assert (P + [c])[..|P|] == P;
    }
  }

  /** A first child before a run. */
  lemma {:induction false} WeaveCons(c: Node, Q: seq<Node>, Y: seq<int>)
    requires |Q| == |Y|
    ensures Weave([c] + Q, Y) == Inorder(c) + Trail(Q, Y)
  {
    if Y != [] {
      assert [] + [Y[0]] + Y[1..] == Y;
      WeaveJoin([c], Q, [], Y[0], Y[1..]);
    }
  }

  /** Five runs grouped around the middle three. */
  lemma Regroup<T>(a: seq<T>, b: seq<T>, c: seq<T>, d: seq<T>, e: seq<T>)
    ensures a + b + c + d + e == a + (b + c + d) + e
  {
  }

  /** Replacing the middle three of five runs by runs with the same
      concatenation leaves the whole unchanged. */
  lemma Splice<T>(w: seq<T>, w': seq<T>, l: seq<T>, x: seq<T>, k: seq<T>, y: seq<T>,
                  x': seq<T>, k': seq<T>, y': seq<T>, r: seq<T>)
    requires w == l + x + k + y + r && w' == l + x' + k' + y' + r
    requires x' + k' + y' == x + k + y
    ensures w' == w
  {
    Regroup(l, x, k, y, r);
    Regroup(l, x', k', y', r);
  }

  /** One child with the runs around it. */
  lemma {:induction false} WeaveAround(P: seq<Node>, c: Node, Q: seq<Node>, X: seq<int>, Y: seq<int>)
    requires |P| == |X| && |Q| == |Y|
    ensures Weave(P + [c] + Q, X + Y) == Lead(P, X) + Inorder(c) + Trail(Q, Y)
  {
    WeaveSnoc(P, c, X);
    if Y == [] {
      assert P + [c] + Q == P + [c] && X + Y == X;
    } else {
      var A, y, Z := P + [c], Y[0], Y[1..];
      assert X + Y == X + [y] + Z;
      WeaveJoin(A, Q, X, y, Z);
      Join(Weave(A + Q, X + Y), Weave(A, X), Lead(P, X), Inorder(c), [y], Weave(Q, Z), Trail(Q, Y));
    }
  }

  /** Regrouping a run whose front and back are known in pieces. */
  lemma Join<T>(w: seq<T>, a: seq<T>, l: seq<T>, i: seq<T>, y: seq<T>, z: seq<T>, t: seq<T>)
    requires w == a + y + z && a == l + i && t == y + z
    ensures w == l + i + t
  {
  }

  /** Two adjacent children and the key between them, with the runs
      around them. */
  lemma {:induction false} WeaveAround2(P: seq<Node>, c1: Node, k: int, c2: Node, Q: seq<Node>, X: seq<int>, Y: seq<int>)
    requires |P| == |X| && |Q| == |Y|
    ensures Weave(P + [c1, c2] + Q, X + [k] + Y) == Lead(P, X) + Inorder(c1) + [k] + Inorder(c2) + Trail(Q, Y)
  {
    assert P + [c1, c2] + Q == (P + [c1]) + ([c2] + Q);
    WeaveJoin(P + [c1], [c2] + Q, X, k, Y);
    WeaveSnoc(P, c1, X);
    WeaveCons(c2, Q, Y);
  }

  /** Child `i` of a node with the rest of the node around it. */
  lemma {:induction false} InorderAt(n: Node, i: nat)
    requires !n.leaf && |n.children| == |n.keys| + 1 && i < |n.children|
    ensures Inorder(n) == Lead(n.children[..i], n.keys[..i]) + Inorder(n.children[i]) + Trail(n.children[i + 1..], n.keys[i..])
  {
    assert n.children == n.children[..i] + [n.children[i]] + n.children[i + 1..];
    assert n.keys == n.keys[..i] + n.keys[i..];
    WeaveAround(n.children[..i], n.children[i], n.children[i + 1..], n.keys[..i], n.keys[i..]);
  }

  /** Children `i` and `i + 1` and the key between them, with the rest of
      the node around them. */
  lemma {:induction false} InorderAt2(n: Node, i: nat)
    requires !n.leaf && |n.children| == |n.keys| + 1 && i + 1 < |n.children|
    ensures Inorder(n) == Lead(n.children[..i], n.keys[..i]) + Inorder(n.children[i]) + [n.keys[i]] +
      Inorder(n.children[i + 1]) + Trail(n.children[i + 2..], n.keys[i + 1..])
  {
    assert n.children == n.children[..i] + [n.children[i], n.children[i + 1]] + n.children[i + 2..];
    assert n.keys == n.keys[..i] + [n.keys[i]] + n.keys[i + 1..];
    WeaveAround2(n.children[..i], n.children[i], n.keys[i], n.children[i + 1], n.children[i + 2..], n.keys[..i], n.keys[i + 1..]);
  }

  // ---------------------------------------------------------------------
  // Order facts.

  lemma {:induction false} SortedParts(a: seq<int>, b: seq<int>, c: seq<int>)
    requires Sorted(a + b + c)
    ensures Sorted(a) && Sorted(b) && Sorted(c)
    ensures forall x, y :: x in a && y in b + c ==> x <= y
    ensures forall x, y :: x in a + b && y in c ==> x <= y
  {
    var s := a + b + c;
    forall i, j | 0 <= i < j < |b| ensures b[i] <= b[j] {
      assert b[i] == s[|a| + i] && b[j] == s[|a| + j];
    }
    forall i, j | 0 <= i < j < |c| ensures c[i] <= c[j] {
      assert c[i] == s[|a| + |b| + i] && c[j] == s[|a| + |b| + j];
    }
    forall i, j | 0 <= i < j < |a| ensures a[i] <= a[j] {
      assert a[i] == s[i] && a[j] == s[j];
    }
    forall x, y | x in a && y in b + c ensures x <= y {
      var i :| 0 <= i < |a| && a[i] == x;
      var j :| 0 <= j < |b + c| && (b + c)[j] == y;
      assert s[i] == x && s[|a| + j] == y;
    }
    forall x, y | x in a + b && y in c ensures x <= y {
      var i :| 0 <= i < |a + b| && (a + b)[i] == x;
      var j :| 0 <= j < |c| && c[j] == y;
      assert s[i] == x && s[|a| + |b| + j] == y;
    }
  }

  /** Joining sorted runs whose bounds line up gives a sorted sequence. */
  lemma {:induction false} SortedJoin(a: seq<int>, b: seq<int>)
    requires Sorted(a) && Sorted(b)
    requires forall x, y :: x in a && y in b ==> x <= y
    ensures Sorted(a + b)
  {
    var s := a + b;
    forall i, j | 0 <= i < j < |s| ensures s[i] <= s[j] {
      if j < |a| {
        assert s[i] == a[i] && s[j] == a[j];
      } else if i >= |a| {
        assert s[i] == b[i - |a|] && s[j] == b[j - |a|];
      } else {
        assert s[i] in a && s[j] in b;
      }
    }
  }

  lemma {:induction false} MembersOfLead(P: seq<Node>, X: seq<int>)
    requires |P| == |X| && X != []
    ensures X[|X| - 1] in Lead(P, X) && Lead(P, X)[|Lead(P, X)| - 1] == X[|X| - 1]
  {
  }

  lemma {:induction false} MembersOfTrail(Q: seq<Node>, Y: seq<int>)
    requires |Q| == |Y| && Y != []
    ensures Trail(Q, Y)[0] == Y[0]
  {
  }

  /** In a sorted sequence nothing before an entry exceeds it and nothing
      after it is smaller. */
  lemma {:induction false} SortedAround(a: seq<int>, b: seq<int>)
    requires Sorted(a + b)
    ensures a != [] ==> forall x :: x in a ==> x <= a[|a| - 1]
    ensures a != [] ==> forall y :: y in b ==> a[|a| - 1] <= y
    ensures b != [] ==> forall y :: y in b ==> b[0] <= y
    ensures b != [] ==> forall x :: x in a ==> x <= b[0]
  {
    var s := a + b;
    forall x | x in a && a != [] ensures x <= a[|a| - 1] {
      var i :| 0 <= i < |a| && a[i] == x;
      assert s[i] == x && s[|a| - 1] == a[|a| - 1];
    }
    forall y | y in b && a != [] ensures a[|a| - 1] <= y {
      var j :| 0 <= j < |b| && b[j] == y;
      assert s[|a| + j] == y && s[|a| - 1] == a[|a| - 1];
    }
    forall y | y in b ensures b[0] <= y {
      var j :| 0 <= j < |b| && b[j] == y;
      assert s[|a| + j] == y && s[|a|] == b[0];
    }
    forall x | x in a && b != [] ensures x <= b[0] {
      var i :| 0 <= i < |a| && a[i] == x;
      assert s[i] == x && s[|a|] == b[0];
    }
  }

  // ---------------------------------------------------------------------
  // Keys of a node.

  /** A node's keys all occur in its in-order sequence. */
  lemma {:induction false} KeysInInorder(n: Node, i: nat)
    requires i < |n.keys|
    ensures n.keys[i] in Inorder(n)
  {
    if !n.leaf && |n.children| == |n.keys| + 1 {
      InorderAt(n, i);
      MembersOfTrail(n.children[i + 1..], n.keys[i..]);
    }
  }

  /** A node's keys, in order, are a part of its sorted in-order sequence. */
  lemma {:induction false} KeysSorted(n: Node)
    requires Sorted(Inorder(n))
    ensures Sorted(n.keys)
  {
    if !n.leaf && |n.children| == |n.keys| + 1 {
      forall i, j | 0 <= i < j < |n.keys| ensures n.keys[i] <= n.keys[j] {
        InorderAt(n, j);
        var c, P, X := n.children, n.children[..j], n.keys[..j];
        assert Lead(P, X) + Inorder(c[j]) + Trail(c[j + 1..], n.keys[j..]) ==
          Lead(P, X) + (Inorder(c[j]) + Trail(c[j + 1..], n.keys[j..]));
        SortedAround(Lead(P, X), Inorder(c[j]) + Trail(c[j + 1..], n.keys[j..]));
        MembersOfTrail(c[j + 1..], n.keys[j..]);
        KeyInLead(P, X, i);
        MembersOfLead(P, X);
        assert n.keys[j] in Inorder(c[j]) + Trail(c[j + 1..], n.keys[j..]);
      }
    }
  }

  /** Every key of `X` occurs in `Lead(P, X)`. */
  lemma {:induction false} KeyInLead(P: seq<Node>, X: seq<int>, i: nat)
    requires |P| == |X| && i < |X|
    ensures X[i] in Lead(P, X)
  {
    var m := |X| - 1;
    if i < m {
      assert P == P[..i + 1] + P[i + 1..m] + [P[m]];
      var n := Node(X[..m], P, false);
      KeysInInorder(n, i);
    }
  }

  /** The first position whose key is not below `key`: the scan of
      `_searchNode` and `_delete`. */
  function Slot(ks: seq<int>, key: int): (i: nat)
    ensures i <= |ks|
    ensures forall j :: 0 <= j < i ==> ks[j] < key
    ensures i < |ks| ==> key <= ks[i]
  {
    if ks == [] || !(key > ks[0]) then 0 else 1 + Slot(ks[1..], key)
  }

  /** Away from the slot's own key, `key` can only lie in the slot's child:
      the keys before it are smaller and the ones from it on are larger. */
  lemma {:induction false} SlotChild(n: Node, key: int)
    requires !n.leaf && |n.children| == |n.keys| + 1 && Sorted(Inorder(n))
    requires Slot(n.keys, key) == |n.keys| || n.keys[Slot(n.keys, key)] != key
    ensures key in Inorder(n) <==> key in Inorder(n.children[Slot(n.keys, key)])
  {
    var i := Slot(n.keys, key);
    var L := Lead(n.children[..i], n.keys[..i]);
    var M := Inorder(n.children[i]);
    var R := Trail(n.children[i + 1..], n.keys[i..]);
    InorderAt(n, i);
    if i > 0 {
      MembersOfLead(n.children[..i], n.keys[..i]);
      AboveLead(L, M, R, key);
    }
    if i < |n.keys| {
      MembersOfTrail(n.children[i + 1..], n.keys[i..]);
      BelowTrail(L, M, R, key);
    }
  }

  /** A key above the last of the leading run of a sorted sequence is not
      in that run. */
  lemma {:induction false} AboveLead(L: seq<int>, M: seq<int>, R: seq<int>, key: int)
    requires Sorted(L + M + R) && L != [] && L[|L| - 1] < key
    ensures key !in L
  {
    assert L + M + R == L + (M + R);
    SortedAround(L, M + R);
  }

  /** A key below the first of the trailing run of a sorted sequence is not
      in that run. */
  lemma {:induction false} BelowTrail(L: seq<int>, M: seq<int>, R: seq<int>, key: int)
    requires Sorted(L + M + R) && R != [] && key < R[0]
    ensures key !in R
  {
    SortedAround(L + M, R);
  }

  /** The first key of a node is in the node's in-order sequence, and the
      in-order sequence of a node that holds a key is not empty. */
  lemma {:induction false} InorderHoldsKeys(n: Node)
    requires |n.keys| > 0
    ensures Inorder(n) != []
  {
    KeysInInorder(n, 0);
  }
}
