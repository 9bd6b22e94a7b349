/**
 * The on-disk sorted table of `SSTable/sst.js`: a file of `key:value\n`
 * records, an in-memory sparse index from some keys to byte offsets, and a
 * record counter.  `write` appends a sorted batch, `get` starts a forward
 * scan at the closest indexed key, and `loadIndex` rebuilds index and
 * counter from the file.
 */
module Sst {
  import opened KeyOrder
  import opened KeyValue
  import opened SstFormat

  /** The bytes of the file; a missing file reads as nothing. */
  function Content(file: Option<string>): string
  {
    if file.Some? then file.value else ""
  }

  function SortedBatch(pairs: seq<Entry>): (r: seq<Entry>)
    ensures |r| == |pairs|
  {
    assert |multiset(SortByKey(pairs))| == |multiset(pairs)|;
    SortByKey(pairs)
  }

  /** One record of `write`'s loop: the index gains the record at the
      running offset exactly when the running count is a multiple of ten,
      and the offset moves past the record. */
  lemma IndexStep(index: map<string, nat>, idx0: map<string, nat>, fs: seq<Framed>, i: nat, n0: nat, base: nat, offset: nat, size: nat)
    requires i < |fs| && size == n0 + i && offset == base + Bytes(fs[..i])
    requires index == idx0 + SparseIndex(fs[..i], n0, base)
    ensures (if size % 10 == 0 then index[fs[i].key := offset] else index) == idx0 + SparseIndex(fs[..i + 1], n0, base)
    ensures offset + fs[i].len == base + Bytes(fs[..i + 1])
  {
    SparseIndexSnoc(fs, i, n0, base, idx0);
  }

  /** The index search of `get`: over all indexed keys, keep the one at or
      below `key` that is greater than the one kept so far, where an empty
      kept key counts as none.  The result is the greatest key at or below
      `key` when it is not empty. */
  method ClosestKey(index: map<string, nat>, key: string) returns (closest: Option<string>, closestOffset: nat)
    ensures closest.None? <==> forall d :: d in index ==> !LessEq(d, key)
    ensures closest.Some? ==>
      closest.value in index && LessEq(closest.value, key) && closestOffset == index[closest.value] &&
      forall d :: d in index && LessEq(d, key) ==> LessEq(d, closest.value)
  {
    closest := None;
    closestOffset := 0;
    var rest := index.Keys;
    while rest != {}
      invariant rest <= index.Keys
      invariant closest.None? <==> forall d :: d in index && d !in rest ==> !LessEq(d, key)
      invariant closest.Some? ==>
        closest.value in index && closest.value !in rest && LessEq(closest.value, key) &&
        closestOffset == index[closest.value] &&
        forall d :: d in index && d !in rest && LessEq(d, key) ==> LessEq(d, closest.value)
      decreases |rest|
    {
      var k :| k in rest;
      if LessEq(k, key) && (closest.None? || closest.value == "" || Less(closest.value, k)) {
        TakeStep(index, rest, closest, k, key);
        closest := Some(k);
        closestOffset := index[k];
      } else if LessEq(k, key) {
        SkipStep(index, rest, closest.value, k, key);
      }
      rest := rest - {k};
    }
  }

  /** A key the search takes is at or above every key seen so far that is
      at or below the target. */
  lemma TakeStep(index: map<string, nat>, rest: set<string>, closest: Option<string>, k: string, key: string)
    requires LessEq(k, key) && (closest.None? || closest.value == "" || Less(closest.value, k))
    requires closest.None? ==> forall d :: d in index && d !in rest ==> !LessEq(d, key)
    requires closest.Some? ==> forall d :: d in index && d !in rest && LessEq(d, key) ==> LessEq(d, closest.value)
    ensures forall d :: d in index && d !in rest - {k} && LessEq(d, key) ==> LessEq(d, k)
  {
    forall d | d in index && d !in rest - {k} && LessEq(d, key) ensures LessEq(d, k) {
      if d != k {
        if closest.Some? && closest.value == "" {
          assert d == "";
        } else if closest.Some? {
          LessEqTransitive(d, closest.value, k);
        }
      }
    }
  }

  /** A key the search passes over is at or below the one it keeps. */
  lemma SkipStep(index: map<string, nat>, rest: set<string>, c: string, k: string, key: string)
    requires LessEq(k, key) && c != "" && !Less(c, k)
    requires forall d :: d in index && d !in rest && LessEq(d, key) ==> LessEq(d, c)
    ensures forall d :: d in index && d !in rest - {k} && LessEq(d, key) ==> LessEq(d, c)
  {
    NotLess(c, k);
  }

  /** No closest key, or only the empty one: `get` answers `None`. */
  lemma NoneBelow(index: map<string, nat>, key: string, closest: Option<string>)
    requires closest.None? <==> forall d :: d in index ==> !LessEq(d, key)
    requires closest.Some? ==> closest.value in index && forall d :: d in index && LessEq(d, key) ==> LessEq(d, closest.value)
    requires closest.None? || closest.value == ""
    ensures !exists d :: d in index && d != "" && LessEq(d, key)
  {
    if closest.Some? {
      forall d | d in index && LessEq(d, key) ensures d == "" {
        if d != "" {
          Irreflexive(d);
          NotLess(d, "");
        }
      }
    }
  }

  /** The scan loop of `get` over the lines read from the offset. */
  method ScanFrom(lines: seq<string>, key: string) returns (r: Option<string>)
    ensures r == Scan(lines, key)
  {
    var i := 0;
    while i < |lines|
      invariant 0 <= i <= |lines|
      invariant Scan(lines, key) == Scan(lines[i..], key)
    {
      assert lines[i..][1..] == lines[i + 1..];
      var recordKey, value := KeyField(lines[i]), ValueField(lines[i]);
      if recordKey == key {
        return value;
      }
      if Less(key, recordKey) {
        return None;
      }
      i := i + 1;
    }
    r := None;
  }

  lemma ScanAnswers(index: map<string, nat>, c: string, key: string, d: string, r: Option<string>)
    requires IsClosest(d, index.Keys, key) && r == Scan(Lines(Tail(c, index[d])), key)
    ensures Answers(index, c, key, r)
  {
  }

  class SSTable {
    var file: Option<string>
    var index: map<string, nat>
    var size: nat

    /** Only an existing file has indexed records. */
    ghost predicate Valid()
      reads this
    {
      file.None? ==> index == map[]
    }

    /** Index and counter are the ones `loadIndex` rebuilds from the file. */
    ghost predicate Consistent()
      reads this
    {
      WellFormed(Content(file)) && index == Rebuilt(Content(file)) && size == |Lines(Content(file))|
    }

    /** `disk` is the file found at the table's path. */
    constructor(disk: Option<string>)
      ensures file == disk && index == map[] && size == 0 && Valid()
    {
      file := disk;
      index := map[];
      size := 0;
    }

    /** `write` with the first record's offset `base`: sort the batch,
        then append its records. */
    method WriteFrom(pairs: seq<Entry>, base: nat)
      modifies this
      ensures file == Some(Content(old(file)) + Encode(SortedBatch(pairs)))
      ensures size == old(size) + |pairs|
      ensures index == old(index) + SparseIndex(Framing(SortedBatch(pairs)), old(size), base)
      ensures Valid()
    {
      var sorted := SortByKey(pairs);
      assert sorted == SortedBatch(pairs);
      AppendRecords(sorted, base);
    }

    /** The loop of `write`: each record goes into the buffer, every tenth
        record counted over the table's life is indexed at the running
        offset, and the buffer is appended to the file at the end. */
    method AppendRecords(ps: seq<Entry>, base: nat)
      modifies this
      ensures file == Some(Content(old(file)) + Encode(ps))
      ensures size == old(size) + |ps|
      ensures index == old(index) + SparseIndex(Framing(ps), old(size), base)
      ensures Valid()
    {
      ghost var fs := Framing(ps);
      ghost var n0, idx0 := size, index;
      var offset := base;
      var buffer := "";
      var i := 0;
      while i < |ps|
        invariant 0 <= i <= |ps|
        invariant buffer == Encode(ps[..i])
        invariant offset == base + Bytes(fs[..i])
        invariant size == n0 + i && file == old(file)
        invariant index == idx0 + SparseIndex(fs[..i], n0, base)
      {
        var key, value := ps[i].key, ps[i].value;
        var record := key + ":" + value + "\n";
        EncodeSnoc(ps, i);
        IndexStep(index, idx0, fs, i, n0, base, offset, size);
        assert record == Record(ps[i]) && fs[i].len == |record|;
        buffer := buffer + record;
        if size % 10 == 0 {
          index := index[key := offset];
        }
        offset := offset + |record|;
        size := size + 1;
        i := i + 1;
      }
      assert ps[..i] == ps && fs[..i] == fs;
      file := Some(Content(file) + buffer);
    }

    /** `write`: append the batch sorted by key.  The offsets it indexes
        count from the start of the batch, not of the file. */
    method Write(pairs: seq<Entry>)
      modifies this
      ensures file == Some(Content(old(file)) + Encode(SortedBatch(pairs)))
      ensures size == old(size) + |pairs|
      ensures index == old(index) + SparseIndex(Framing(SortedBatch(pairs)), old(size), 0)
      ensures Valid()
    {
      WriteFrom(pairs, 0);
    }

    /** `write` with offsets counted from the end of the file: the index
        stays the one `loadIndex` rebuilds. */
    method WriteAtEnd(pairs: seq<Entry>)
      modifies this
      ensures file == Some(Content(old(file)) + Encode(SortedBatch(pairs)))
      ensures size == old(size) + |pairs|
      ensures index == old(index) + SparseIndex(Framing(SortedBatch(pairs)), old(size), |Content(old(file))|)
      ensures Valid()
      ensures old(Consistent()) && PlainPairs(pairs) ==> Consistent()
    {
      if Consistent() && PlainPairs(pairs) {
        AppendConsistent(Content(file), pairs);
      }
      WriteFrom(pairs, |Content(file)|);
    }

    /** `get`: find the greatest non-empty indexed key at or below `key`,
        then scan forward from its offset. */
    method Get(key: string) returns (r: Option<string>)
      requires Valid()
      ensures Answers(index, Content(file), key, r)
    {
      var closest, closestOffset := ClosestKey(index, key);
      if closest.None? || closest.value == "" {
        NoneBelow(index, key, closest);
        return None;
      }
      assert IsClosest(closest.value, index.Keys, key);
      r := ScanFrom(Lines(Tail(file.value, closestOffset)), key);
      ScanAnswers(index, Content(file), key, closest.value, r);
    }

    /** `loadIndex`: rebuild index and counter by reading the whole file.
        A missing file gives an empty index; any other read error leaves
        the table as it was and is reported as `false`. */
    method LoadIndex(readError: bool) returns (ok: bool)
      modifies this
      ensures file == old(file)
      ensures ok <==> old(file).None? || !readError
      ensures !ok ==> index == old(index) && size == old(size)
      ensures ok ==> index == Rebuilt(Content(file)) && size == |Lines(Content(file))|
      ensures Valid()
    {
      if file.None? {
        index := map[];
        size := 0;
        return true;
      }
      if readError {
        return false;
      }
      var lines := Lines(file.value);
      ghost var fs := LineFraming(lines);
      var offset := 0;
      index := map[];
      size := 0;
      var i := 0;
      while i < |lines|
        invariant 0 <= i <= |lines|
        invariant index == SparseIndex(fs[..i], 0, 0)
        invariant offset == Bytes(fs[..i])
        invariant size == i && file == old(file)
      {
        assert fs[..i + 1][..i] == fs[..i];
        var key := KeyField(lines[i]);
        if i % 10 == 0 {
          index := index[key := offset];
        }
        offset := offset + |lines[i]| + 1;
        size := size + 1;
        i := i + 1;
      }
      assert fs[..i] == fs;
      ok := true;
    }
  }

  // ---------------------------------------------------------------------
  // Write, load and read back.

  lemma PlainSorted(pairs: seq<Entry>)
    requires PlainPairs(pairs)
    ensures PlainPairs(SortedBatch(pairs))
  {
    var s := SortedBatch(pairs);
    forall i | 0 <= i < |s| ensures Plain(s[i].key) && Plain(s[i].value) {
      assert s[i] in multiset(pairs);
      var j :| 0 <= j < |pairs| && pairs[j] == s[i];
    }
  }

  lemma JoinEnds(ls: seq<string>)
    ensures Join(ls) == [] || Join(ls)[|Join(ls)| - 1] == '\n'
  {
  }

  /** Appending a sorted batch of delimiter-free pairs to a well-formed
      file keeps it well formed; the rebuilt index is the old one with the
      batch's records indexed from the old count at offsets from the old
      end, and the line count grows by the batch size. */
  lemma AppendConsistent(c: string, pairs: seq<Entry>)
    requires WellFormed(c) && PlainPairs(pairs)
    ensures WellFormed(c + Encode(SortedBatch(pairs)))
    ensures Rebuilt(c + Encode(SortedBatch(pairs))) ==
      Rebuilt(c) + SparseIndex(Framing(SortedBatch(pairs)), |Lines(c)|, |c|)
    ensures |Lines(c + Encode(SortedBatch(pairs)))| == |Lines(c)| + |pairs|
  {
    var s := SortedBatch(pairs);
    PlainSorted(pairs);
    var e := Encode(s);
    var ls, rs := Lines(c), RecordLines(s);
    AppendLines(c, s);
    assert Lines(c + e) == ls + rs;
    JoinAppend(ls, rs);
    JoinRecordLines(s);
    assert Join(Lines(c + e)) == c + e;
    FramingOfLines(s);
    JoinLength(ls);
    var lf := LineFraming(ls);
    LineFramingAppend(ls, rs);
    IndexOfAppend(lf, Framing(s));
  }

  /** The index over frames `lf + fs`: the one over `lf`, then the one
      over `fs` counted on from `lf`. */
  lemma IndexOfAppend(lf: seq<Framed>, fs: seq<Framed>)
    ensures SparseIndex(lf + fs, 0, 0) == SparseIndex(lf, 0, 0) + SparseIndex(fs, |lf|, Bytes(lf))
  {
    SparseIndexAppend(lf, fs, 0, 0);
  }

  lemma AppendLines(c: string, s: seq<Entry>)
    requires WellFormed(c) && PlainPairs(s)
    ensures Lines(c + Encode(s)) == Lines(c) + RecordLines(s)
  {
    JoinEnds(Lines(c));
    LinesAppend(c, Encode(s));
    LinesOfEncode(s);
  }

  /** Round trip of the index: after one `write` of delimiter-free pairs
      into a fresh table with an empty file, `loadIndex` rebuilds exactly
      the index and counter `write` built. */
  lemma WriteLoadIndex(pairs: seq<Entry>)
    requires PlainPairs(pairs)
    ensures Rebuilt("" + Encode(SortedBatch(pairs))) == map[] + SparseIndex(Framing(SortedBatch(pairs)), 0, 0)
    ensures |Lines("" + Encode(SortedBatch(pairs)))| == 0 + |pairs|
  {
    assert Join(Lines("")) == "";
    AppendConsistent("", pairs);
    assert Rebuilt("") == map[];
  }

  /** The file from the offset at which record `i` is indexed holds the
      records from `i` on. */
  lemma TailAtRecord(s: seq<Entry>, i: nat)
    requires i < |s|
    ensures Tail(Encode(s), Bytes(Framing(s)[..i])) == Encode(s[i..])
  {
    FramingPrefix(s, i);
    EncodeLength(s[..i]);
    assert s == s[..i] + s[i..];
    EncodeAppend(s[..i], s[i..]);
    var a, b := Encode(s[..i]), Encode(s[i..]);
    assert (a + b)[|a|..] == b;
  }

  lemma PlainSuffix(s: seq<Entry>, i: nat)
    requires PlainPairs(s) && i <= |s|
    ensures PlainPairs(s[i..])
  {
    forall j | 0 <= j < |s[i..]| ensures Plain(s[i..][j].key) && Plain(s[i..][j].value) {
      assert s[i..][j] == s[i + j];
    }
  }

  /** A read that settles on an indexed key finds what the records from
      that key on hold under the target. */
  lemma ReadFromIndexed(s: seq<Entry>, key: string, d: string)
    requires StrictlySorted(s) && PlainPairs(s)
    requires IsClosest(d, SparseIndex(Framing(s), 0, 0).Keys, key)
    ensures Scan(Lines(Tail(Encode(s), SparseIndex(Framing(s), 0, 0)[d])), key) == Lookup(s, key)
  {
    var i := IndexedRecord(s, d);
    ReadAt(s, key, i);
    LookupSuffix(s, i, key);
  }

  /** An indexed key of a table with distinct keys names one record, and
      the index holds that record's offset. */
  lemma IndexedRecord(s: seq<Entry>, d: string) returns (i: nat)
    requires StrictlySorted(s) && d in SparseIndex(Framing(s), 0, 0)
    ensures i < |s| && s[i].key == d && SparseIndex(Framing(s), 0, 0)[d] == Bytes(Framing(s)[..i])
  {
    var fs := Framing(s);
    StrictlySortedUnique(s);
    SparseIndexKeys(fs, 0, 0, d);
    i :| 0 <= i < |fs| && i % 10 == 0 && fs[i].key == d;
    assert fs[i] == Framed(s[i].key, |Record(s[i])|);
    forall j | i < j < |fs| ensures fs[j].key != fs[i].key {
      assert fs[j].key == s[j].key;
    }
    SparseIndexAt(fs, 0, 0, i);
  }

  /** The scan from the offset of record `i` reads the records from `i` on. */
  lemma ReadAt(s: seq<Entry>, key: string, i: nat)
    requires StrictlySorted(s) && PlainPairs(s) && i < |s|
    ensures Scan(Lines(Tail(Encode(s), Bytes(Framing(s)[..i]))), key) == Lookup(s[i..], key)
  {
    TailAtRecord(s, i);
    PlainSuffix(s, i);
    LinesOfEncode(s[i..]);
    StrictSuffix(s, i);
    ScanRecords(s[i..], key);
  }

  lemma StrictSuffix(s: seq<Entry>, i: nat)
    requires StrictlySorted(s) && i <= |s|
    ensures StrictlySorted(s[i..])
  {
    forall p, q | 0 <= p < q < |s[i..]| ensures Less(s[i..][p].key, s[i..][q].key) {
      assert s[i..][p] == s[i + p] && s[i..][q] == s[i + q];
    }
  }

  /** With no non-empty indexed key at or below the target, the target lies
      below every written key. */
  lemma ReadBelowIndex(s: seq<Entry>, key: string)
    requires StrictlySorted(s) && PlainPairs(s)
    requires forall i :: 0 <= i < |s| ==> s[i].key != ""
    requires !exists d :: d in SparseIndex(Framing(s), 0, 0) && d != "" && LessEq(d, key)
    ensures Lookup(s, key) == None
  {
    if s != [] {
      StrictlySortedUnique(s);
      SparseIndexAt(Framing(s), 0, 0, 0);
      NotLess(s[0].key, key);
      ScanRecords(s, key);
      LinesOfEncode(s);
      FieldsOfRecord(s[0]);
      Irreflexive(key);
    }
  }

  /** Round trip of a read: after one `write` of delimiter-free pairs with
      distinct non-empty keys into a fresh table with an empty file, `get`
      answers every key with the value written under it, `None` for keys
      never written. */
  lemma WriteGet(pairs: seq<Entry>, key: string, r: Option<string>)
    requires PlainPairs(pairs) && UniqueKeys(pairs)
    requires forall i :: 0 <= i < |pairs| ==> pairs[i].key != ""
    requires Answers(map[] + SparseIndex(Framing(SortedBatch(pairs)), 0, 0), "" + Encode(SortedBatch(pairs)), key, r)
    ensures r == Lookup(pairs, key)
  {
    var s := SortedBatch(pairs);
    var idx := SparseIndex(Framing(s), 0, 0);
    var c := Encode(s);
    assert map[] + idx == idx;
    assert "" + c == c;
    BatchFacts(pairs, key);
    if !(exists d :: d in idx && d != "" && LessEq(d, key)) {
      ReadBelowIndex(s, key);
    } else {
      var d :| IsClosest(d, idx.Keys, key) && r == Scan(Lines(Tail(c, idx[d])), key);
      ReadFromIndexed(s, key, d);
    }
  }

  /** The sorted batch of distinct delimiter-free non-empty keys. */
  lemma BatchFacts(pairs: seq<Entry>, key: string)
    requires PlainPairs(pairs) && UniqueKeys(pairs)
    requires forall i :: 0 <= i < |pairs| ==> pairs[i].key != ""
    ensures var s := SortedBatch(pairs);
      StrictlySorted(s) && PlainPairs(s) && (forall i :: 0 <= i < |s| ==> s[i].key != "") &&
      Lookup(s, key) == Lookup(pairs, key)
  {
    var s := SortedBatch(pairs);
    SortKeepsLookups(pairs);
    PlainSorted(pairs);
    forall i | 0 <= i < |s| ensures s[i].key != "" {
      assert s[i] in multiset(pairs);
      var j :| 0 <= j < |pairs| && pairs[j] == s[i];
    }
  }

  /** What `write` does to a table: the offsets of a batch written after
      ten or more records count from the batch, so once the file is not
      empty and the record count is a multiple of ten, the first record of
      the next batch is indexed at 0 while `loadIndex` indexes it at the
      old end of the file. */
  lemma WriteIndexDrift(c: string, pairs: seq<Entry>)
    requires WellFormed(c) && c != "" && |Lines(c)| % 10 == 0
    requires PlainPairs(pairs) && UniqueKeys(pairs) && pairs != []
    ensures Rebuilt(c) + SparseIndex(Framing(SortedBatch(pairs)), |Lines(c)|, 0) != Rebuilt(c + Encode(SortedBatch(pairs)))
  {
    var s := SortedBatch(pairs);
    var fs := Framing(s);
    var n := |Lines(c)|;
    SortKeepsLookups(pairs);
    StrictlySortedUnique(s);
    forall j | 0 < j < |fs| ensures fs[j].key != fs[0].key {
      assert fs[j].key == s[j].key && fs[0].key == s[0].key;
    }
    FirstIndexed(fs, n, 0);
    FirstIndexed(fs, n, |c|);
    AppendConsistent(c, pairs);
    Differ(Rebuilt(c), SparseIndex(fs, n, 0), SparseIndex(fs, n, |c|), fs[0].key, 0, |c|);
  }

  /** The first record of a batch that starts on a multiple of ten is
      indexed at `base`. */
  lemma FirstIndexed(fs: seq<Framed>, n: nat, base: nat)
    requires fs != [] && n % 10 == 0
    requires forall j :: 0 < j < |fs| ==> fs[j].key != fs[0].key
    ensures fs[0].key in SparseIndex(fs, n, base) && SparseIndex(fs, n, base)[fs[0].key] == base
  {
    assert fs[..0] == [];
    SparseIndexAt(fs, n, base, 0);
  }

  lemma Differ(m: map<string, nat>, a: map<string, nat>, b: map<string, nat>, k: string, x: nat, y: nat)
    requires k in a && k in b && a[k] == x && b[k] == y && x != y
    ensures m + a != m + b
  {
    assert (m + a)[k] == x && (m + b)[k] == y;
  }
}
