/**
 * Key-value pairs and the operations on sequences of them that the storage
 * engine and the disk table share: lookup, the insertion-ordered map update
 * of a JavaScript `Map`, building a map from a list of pairs, and sorting by
 * key.
 */
module KeyValue {
  import opened KeyOrder

  datatype Option<T> = None | Some(value: T)

  /** One `[key, value]` pair (lsm.js) or `{ key, value }` record (sst.js). */
  datatype Entry = Entry(key: string, value: string)

  function KeySet(s: seq<Entry>): set<string>
  {
    set i | 0 <= i < |s| :: s[i].key
  }

  /** No key occurs twice. */
  predicate UniqueKeys(s: seq<Entry>)
  {
    forall i, j :: 0 <= i < j < |s| ==> s[i].key != s[j].key
  }

  /** Ascending by key, ties allowed. */
  predicate Sorted(s: seq<Entry>)
  {
    forall i, j :: 0 <= i < j < |s| ==> LessEq(s[i].key, s[j].key)
  }

  /** Strictly ascending by key: sorted with no key twice. */
  predicate StrictlySorted(s: seq<Entry>)
  {
    forall i, j :: 0 <= i < j < |s| ==> Less(s[i].key, s[j].key)
  }

  lemma KeySetCons(e: Entry, s: seq<Entry>)
    ensures KeySet([e] + s) == {e.key} + KeySet(s)
  {
    var t := [e] + s;
    assert t[0].key in KeySet(t);
    forall k | k in KeySet(t) ensures k in {e.key} + KeySet(s) {
      var i :| 0 <= i < |t| && t[i].key == k;
      if i > 0 { assert t[i] == s[i - 1]; assert s[i - 1].key in KeySet(s); }
    }
    forall k | k in KeySet(s) ensures k in KeySet(t) {
      var i :| 0 <= i < |s| && s[i].key == k;
      assert t[i + 1] == s[i];
      assert t[i + 1].key in KeySet(t);
    }
  }

  lemma KeySetSnoc(s: seq<Entry>, e: Entry)
    ensures KeySet(s + [e]) == KeySet(s) + {e.key}
  {
    var t := s + [e];
    assert t[|s|].key in KeySet(t);
    forall k | k in KeySet(t) ensures k in KeySet(s) + {e.key} {
      var i :| 0 <= i < |t| && t[i].key == k;
      if i < |s| { assert t[i] == s[i]; assert s[i].key in KeySet(s); }
    }
    forall k | k in KeySet(s) ensures k in KeySet(t) {
      var i :| 0 <= i < |s| && s[i].key == k;
      assert t[i] == s[i];
      assert t[i].key in KeySet(t);
    }
  }

  lemma StrictlySortedUnique(s: seq<Entry>)
    requires StrictlySorted(s)
    ensures UniqueKeys(s)
  {
    forall i, j | 0 <= i < j < |s| ensures s[i].key != s[j].key {
      Irreflexive(s[i].key);
    }
  }

  /** The value of the first entry with key `k`: `Map.get`, and the reference
      meaning of a lookup in a table. */
  function Lookup(s: seq<Entry>, k: string): (r: Option<string>)
    ensures r.Some? ==> Entry(k, r.value) in s
    ensures r.None? <==> k !in KeySet(s)
  {
    if s == [] then None
    else
      KeySetCons(s[0], s[1..]);
      assert s == [s[0]] + s[1..];
      if s[0].key == k then Some(s[0].value) else Lookup(s[1..], k)
  }

  /** With unique keys, a lookup finds exactly the pairs present. */
  lemma {:induction false} LookupUnique(s: seq<Entry>, k: string, v: string)
    requires UniqueKeys(s)
    ensures Lookup(s, k) == Some(v) <==> Entry(k, v) in s
  {
    if s != [] && Entry(k, v) in s && s[0].key != k {
      assert Entry(k, v) in s[1..];
      LookupUnique(s[1..], k, v);
    }
    if s != [] && Entry(k, v) in s && s[0].key == k {
      var i :| 0 <= i < |s| && s[i] == Entry(k, v);
      assert i == 0;
    }
  }

  lemma LookupExact(s: seq<Entry>, k: string)
    requires UniqueKeys(s)
    ensures forall v :: Lookup(s, k) == Some(v) <==> Entry(k, v) in s
  {
    forall v ensures Lookup(s, k) == Some(v) <==> Entry(k, v) in s {
      LookupUnique(s, k, v);
    }
  }

  /** Two key-unique sequences holding the same pairs answer every lookup alike. */
  lemma LookupSamePairs(a: seq<Entry>, b: seq<Entry>, k: string)
    requires UniqueKeys(a) && UniqueKeys(b)
    requires forall e :: e in a <==> e in b
    ensures Lookup(a, k) == Lookup(b, k)
  {
    if Lookup(a, k).Some? {
      LookupUnique(a, k, Lookup(a, k).value);
      LookupUnique(b, k, Lookup(a, k).value);
    } else if Lookup(b, k).Some? {
      LookupUnique(b, k, Lookup(b, k).value);
      LookupUnique(a, k, Lookup(b, k).value);
    }
  }

  /** `Map.set`: overwrite the value of an existing key in place, or append a
      new pair at the end (a `Map` keeps insertion order). */
  function Assign(s: seq<Entry>, k: string, v: string): seq<Entry>
  {
    if s == [] then [Entry(k, v)]
    else if s[0].key == k then [Entry(k, v)] + s[1..]
    else [s[0]] + Assign(s[1..], k, v)
  }

  lemma {:induction false} AssignLookup(s: seq<Entry>, k: string, v: string, k': string)
    ensures Lookup(Assign(s, k, v), k') == if k' == k then Some(v) else Lookup(s, k')
  {
    if s != [] && s[0].key != k {
      AssignLookup(s[1..], k, v, k');
    }
  }

  lemma {:induction false} AssignKeys(s: seq<Entry>, k: string, v: string)
    ensures KeySet(Assign(s, k, v)) == KeySet(s) + {k}
    ensures |Assign(s, k, v)| == if k in KeySet(s) then |s| else |s| + 1
  {
    if s == [] {
      assert KeySet([Entry(k, v)]) == {k} by { KeySetCons(Entry(k, v), []); }
    } else {
      KeySetCons(s[0], s[1..]);
      assert s == [s[0]] + s[1..];
      if s[0].key == k {
        KeySetCons(Entry(k, v), s[1..]);
      } else {
        AssignKeys(s[1..], k, v);
        KeySetCons(s[0], Assign(s[1..], k, v));
      }
    }
  }

  lemma {:induction false} AssignUnique(s: seq<Entry>, k: string, v: string)
    requires UniqueKeys(s)
    ensures UniqueKeys(Assign(s, k, v))
  {
    if s != [] && s[0].key != k {
      UniqueTail(s);
      AssignUnique(s[1..], k, v);
      AssignKeys(s[1..], k, v);
      UniqueCons(s[0], Assign(s[1..], k, v));
    }
  }

  /** The tail of a key-unique sequence is key-unique and lacks the head's key. */
  lemma UniqueTail(s: seq<Entry>)
    requires UniqueKeys(s) && s != []
    ensures UniqueKeys(s[1..]) && s[0].key !in KeySet(s[1..])
  {
    forall j | 0 <= j < |s| - 1 ensures s[1..][j].key != s[0].key {
      assert s[1..][j] == s[j + 1];
    }
  }

  /** A key-unique sequence stays so under a pair whose key it lacks. */
  lemma UniqueCons(e: Entry, a: seq<Entry>)
    requires UniqueKeys(a) && e.key !in KeySet(a)
    ensures UniqueKeys([e] + a)
  {
    var r := [e] + a;
    forall i, j | 0 <= i < j < |r| ensures r[i].key != r[j].key {
      assert r[j] == a[j - 1];
      if i == 0 {
        assert a[j - 1].key in KeySet(a);
      } else {
        assert r[i] == a[i - 1];
      }
    }
  }

  /** After `set(k, v)`: `get(k)` is `v`, every other key is unchanged, the key
      set gains `k`, the size grows exactly when `k` is new, and keys stay unique. */
  lemma AssignSpec(s: seq<Entry>, k: string, v: string)
    ensures Lookup(Assign(s, k, v), k) == Some(v)
    ensures forall k' :: k' != k ==> Lookup(Assign(s, k, v), k') == Lookup(s, k')
    ensures KeySet(Assign(s, k, v)) == KeySet(s) + {k}
    ensures |Assign(s, k, v)| == if k in KeySet(s) then |s| else |s| + 1
    ensures UniqueKeys(s) ==> UniqueKeys(Assign(s, k, v))
  {
    AssignLookup(s, k, v, k);
    forall k' | k' != k ensures Lookup(Assign(s, k, v), k') == Lookup(s, k') {
      AssignLookup(s, k, v, k');
    }
    AssignKeys(s, k, v);
    if UniqueKeys(s) {
      AssignUnique(s, k, v);
    }
  }

  /** With unique keys, the number of pairs is the number of distinct keys. */
  lemma {:induction false} UniqueKeysCount(s: seq<Entry>)
    requires UniqueKeys(s)
    ensures |KeySet(s)| == |s|
  {
    if s != [] {
      KeySetCons(s[0], s[1..]);
      assert s == [s[0]] + s[1..];
      UniqueKeysCount(s[1..]);
      assert s[0].key !in KeySet(s[1..]);
    }
  }

  /** The value of the LAST entry with key `k`: what a map built from the
      pairs in order keeps ("last write wins"). */
  function LastValue(s: seq<Entry>, k: string): Option<string>
  {
    if s == [] then None
    else if s[|s| - 1].key == k then Some(s[|s| - 1].value)
    else LastValue(s[..|s| - 1], k)
  }

  /** The map a loop `for ([k, v] of s) map.set(k, v)` builds from an empty
      `Map`, as its insertion-ordered pairs. */
  function Collect(s: seq<Entry>): seq<Entry>
  {
    if s == [] then []
    else Assign(Collect(s[..|s| - 1]), s[|s| - 1].key, s[|s| - 1].value)
  }

  /** Building a map from pairs keeps, for each key, its last value, has unique
      keys and holds exactly the keys of the pairs. */
  lemma {:induction false} CollectSpec(s: seq<Entry>)
    ensures forall k :: Lookup(Collect(s), k) == LastValue(s, k)
    ensures UniqueKeys(Collect(s))
    ensures KeySet(Collect(s)) == KeySet(s)
  {
    if s != [] {
      var n := |s| - 1;
      var c := Collect(s[..n]);
      CollectSpec(s[..n]);
      assert Collect(s) == Assign(c, s[n].key, s[n].value);
      forall k ensures Lookup(Collect(s), k) == LastValue(s, k) {
        AssignLookup(c, s[n].key, s[n].value, k);
      }
      AssignUnique(c, s[n].key, s[n].value);
      AssignKeys(c, s[n].key, s[n].value);
      assert s == s[..n] + [s[n]];
      KeySetSnoc(s[..n], s[n]);
    }
  }

  /** The last value in `a + b` is the one in `b` when `b` has the key. */
  lemma {:induction false} LastValueConcat(a: seq<Entry>, b: seq<Entry>, k: string)
    ensures LastValue(a + b, k) == if LastValue(b, k).Some? then LastValue(b, k) else LastValue(a, k)
    decreases |b|
  {
    if b == [] {
      assert a + b == a;
    } else {
      var n := |b| - 1;
      assert (a + b)[..|a + b| - 1] == a + b[..n];
      assert (a + b)[|a + b| - 1] == b[n];
      LastValueConcat(a, b[..n], k);
    }
  }

  /** With unique keys there is only one entry per key, so last equals first. */
  lemma {:induction false} LastValueUnique(s: seq<Entry>, k: string)
    requires UniqueKeys(s)
    ensures LastValue(s, k) == Lookup(s, k)
  {
    if s != [] {
      var n := |s| - 1;
      LastValueUnique(s[..n], k);
      if s[n].key == k {
        LookupUnique(s, k, s[n].value);
      } else {
        var v := Lookup(s, k);
        if v.Some? {
          LookupUnique(s, k, v.value);
          var j :| 0 <= j < |s| && s[j] == Entry(k, v.value);
          assert s[..n][j] == s[j];
          LookupUnique(s[..n], k, v.value);
        }
      }
    }
  }

  /** Every entry of `s` has a key at or above `k` (strictly when `strict`). */
  predicate AllAbove(k: string, s: seq<Entry>, strict: bool)
  {
    forall j :: 0 <= j < |s| ==> if strict then Less(k, s[j].key) else LessEq(k, s[j].key)
  }

  lemma AllAboveSubset(k: string, t: seq<Entry>, u: seq<Entry>, strict: bool)
    requires forall x :: x in t ==> x in u
    requires AllAbove(k, u, strict)
    ensures AllAbove(k, t, strict)
  {
    forall j | 0 <= j < |t| ensures if strict then Less(k, t[j].key) else LessEq(k, t[j].key) {
      assert t[j] in t;
    }
  }

  /** `e` goes after the first entry: the rest, with `e` inserted, stays
      above that entry. */
  lemma InsertByKeyHead(e: Entry, s: seq<Entry>, t: seq<Entry>)
    requires s != [] && Sorted(s) && Less(s[0].key, e.key)
    requires Sorted(t) && multiset(t) == multiset(s[1..]) + multiset{e}
    requires StrictlySorted(s[1..]) && e.key !in KeySet(s[1..]) ==> StrictlySorted(t)
    ensures Sorted([s[0]] + t)
    ensures multiset([s[0]] + t) == multiset(s) + multiset{e}
    ensures StrictlySorted(s) && e.key !in KeySet(s) ==> StrictlySorted([s[0]] + t)
  {
    assert s == [s[0]] + s[1..];
    HeadSorted(e, s, t);
    if StrictlySorted(s) && e.key !in KeySet(s) {
      HeadStrict(e, s, t);
    }
  }

  lemma HeadSorted(e: Entry, s: seq<Entry>, t: seq<Entry>)
    requires s != [] && Sorted(s) && Less(s[0].key, e.key)
    requires Sorted(t) && multiset(t) == multiset(s[1..]) + multiset{e}
    ensures Sorted([s[0]] + t)
  {
    HeadBelow(e, s, t);
    var r := [s[0]] + t;
    forall i, j | 0 <= i < j < |r| ensures LessEq(r[i].key, r[j].key) {
      if i > 0 { assert r[i] == t[i - 1] && r[j] == t[j - 1]; }
      else { assert r[j] == t[j - 1]; }
    }
  }

  lemma HeadStrict(e: Entry, s: seq<Entry>, t: seq<Entry>)
    requires s != [] && StrictlySorted(s) && Less(s[0].key, e.key) && e.key !in KeySet(s)
    requires multiset(t) == multiset(s[1..]) + multiset{e}
    requires StrictlySorted(s[1..]) && e.key !in KeySet(s[1..]) ==> StrictlySorted(t)
    ensures StrictlySorted([s[0]] + t)
  {
    KeySetCons(s[0], s[1..]);
    assert s == [s[0]] + s[1..];
    StrictTail(s);
    assert Sorted(s);
    HeadBelow(e, s, t);
    var r := [s[0]] + t;
    forall i, j | 0 <= i < j < |r| ensures Less(r[i].key, r[j].key) {
      if i > 0 { assert r[i] == t[i - 1] && r[j] == t[j - 1]; }
      else { assert r[j] == t[j - 1]; }
    }
  }

  lemma StrictTail(s: seq<Entry>)
    requires s != [] && StrictlySorted(s)
    ensures StrictlySorted(s[1..])
  {
    forall i, j | 0 <= i < j < |s[1..]| ensures Less(s[1..][i].key, s[1..][j].key) {
      assert s[1..][i] == s[i + 1] && s[1..][j] == s[j + 1];
    }
  }

  lemma HeadBelow(e: Entry, s: seq<Entry>, t: seq<Entry>)
    requires s != [] && Sorted(s) && Less(s[0].key, e.key)
    requires multiset(t) == multiset(s[1..]) + multiset{e}
    ensures AllAbove(s[0].key, t, false)
    ensures StrictlySorted(s) ==> AllAbove(s[0].key, t, true)
  {
    var u := s[1..] + [e];
    forall x | x in t ensures x in u {
      assert x in multiset(t);
    }
    assert AllAbove(s[0].key, u, false) by {
      forall j | 0 <= j < |u| ensures LessEq(s[0].key, u[j].key) {
        if j < |s| - 1 { assert u[j] == s[j + 1]; }
      }
    }
    AllAboveSubset(s[0].key, t, u, false);
    if StrictlySorted(s) {
      forall j | 0 <= j < |u| ensures Less(s[0].key, u[j].key) {
        if j < |s| - 1 { assert u[j] == s[j + 1]; }
      }
      AllAboveSubset(s[0].key, t, u, true);
    }
  }

  /** `e` goes first: every entry is at or above it. */
  lemma InsertByKeyFront(e: Entry, s: seq<Entry>)
    requires s != [] && Sorted(s) && !Less(s[0].key, e.key)
    ensures Sorted([e] + s)
    ensures StrictlySorted(s) && e.key !in KeySet(s) ==> StrictlySorted([e] + s)
  {
    NotLess(s[0].key, e.key);
    forall j | 0 <= j < |s| ensures LessEq(e.key, s[j].key) && (e.key !in KeySet(s) ==> Less(e.key, s[j].key)) {
      LessEqTransitive(e.key, s[0].key, s[j].key);
      if e.key !in KeySet(s) {
        assert s[j].key in KeySet(s);
      }
    }
    var r := [e] + s;
    forall i, j | 0 <= i < j < |r| ensures LessEq(r[i].key, r[j].key) {
      assert r[j] == s[j - 1];
      if i > 0 { assert r[i] == s[i - 1]; }
    }
    if StrictlySorted(s) && e.key !in KeySet(s) {
      forall i, j | 0 <= i < j < |r| ensures Less(r[i].key, r[j].key) {
        assert r[j] == s[j - 1];
        if i > 0 { assert r[i] == s[i - 1]; }
      }
    }
  }

  /** Insert `e` before the first entry whose key is not below its own. */
  function InsertByKey(e: Entry, s: seq<Entry>): (r: seq<Entry>)
    requires Sorted(s)
    ensures Sorted(r)
    ensures multiset(r) == multiset(s) + multiset{e}
    ensures StrictlySorted(s) && e.key !in KeySet(s) ==> StrictlySorted(r)
  {
    if s == [] then [e]
    else if Less(s[0].key, e.key) then
      SortedTail(s);
      var t := InsertByKey(e, s[1..]);
      InsertByKeyHead(e, s, t);
      [s[0]] + t
    else
      InsertByKeyFront(e, s);
      [e] + s
  }

  lemma SortedTail(s: seq<Entry>)
    requires s != [] && Sorted(s)
    ensures Sorted(s[1..])
  {
    forall i, j | 0 <= i < j < |s[1..]| ensures LessEq(s[1..][i].key, s[1..][j].key) {
      assert s[1..][i] == s[i + 1] && s[1..][j] == s[j + 1];
    }
  }

  lemma SortedTailKeys(s: seq<Entry>, t: seq<Entry>)
    requires s != [] && UniqueKeys(s) && multiset(t) == multiset(s[1..])
    ensures s[0].key !in KeySet(t)
  {
    forall j | 0 <= j < |t| ensures t[j].key != s[0].key {
      assert t[j] in multiset(s[1..]);
      var p :| 0 <= p < |s[1..]| && s[1..][p] == t[j];
      assert s[1..][p] == s[p + 1];
    }
  }

  /** `Array.prototype.sort` by key: a stable insertion sort. */
  function SortByKey(s: seq<Entry>): (r: seq<Entry>)
    ensures Sorted(r)
    ensures multiset(r) == multiset(s)
    ensures UniqueKeys(s) ==> StrictlySorted(r)
  {
    if s == [] then []
    else
      var t := SortByKey(s[1..]);
      assert s == [s[0]] + s[1..];
      assert UniqueKeys(s) ==> UniqueKeys(s[1..]);
      if UniqueKeys(s) then
        SortedTailKeys(s, t);
        InsertByKey(s[0], t)
      else
        InsertByKey(s[0], t)
  }

  /** Sorting key-unique pairs keeps every lookup and the key set. */
  lemma SortKeepsLookups(s: seq<Entry>)
    requires UniqueKeys(s)
    ensures StrictlySorted(SortByKey(s)) && UniqueKeys(SortByKey(s))
    ensures KeySet(SortByKey(s)) == KeySet(s)
    ensures forall k :: Lookup(SortByKey(s), k) == Lookup(s, k)
  {
    var r := SortByKey(s);
    StrictlySortedUnique(r);
    SamePairs(r, s);
    forall k ensures Lookup(r, k) == Lookup(s, k) {
      LookupSamePairs(r, s, k);
    }
    SameKeySet(r, s);
  }

  /** Sequences with the same multiset hold the same pairs. */
  lemma SamePairs(a: seq<Entry>, b: seq<Entry>)
    requires multiset(a) == multiset(b)
    ensures forall e :: e in a <==> e in b
  {
    forall e ensures e in a <==> e in b {
      assert e in a <==> e in multiset(a);
      assert e in b <==> e in multiset(b);
    }
  }

  /** Sequences holding the same pairs have the same keys. */
  lemma SameKeySet(a: seq<Entry>, b: seq<Entry>)
    requires forall e :: e in a <==> e in b
    ensures KeySet(a) == KeySet(b)
  {
    forall k | k in KeySet(a) ensures k in KeySet(b) {
      var i :| 0 <= i < |a| && a[i].key == k;
      assert a[i] in b;
    }
    forall k | k in KeySet(b) ensures k in KeySet(a) {
      var i :| 0 <= i < |b| && b[i].key == k;
      assert b[i] in a;
    }
  }
}
