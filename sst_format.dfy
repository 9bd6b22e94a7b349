/**
 * The text format of an on-disk sorted table (`SSTable/sst.js`): one record
 * `key:value\n` per pair, read back by splitting on `'\n'`, dropping empty
 * lines, and splitting a line on `':'`.  Characters stand for bytes, so a
 * string's length is its byte length.
 */
module SstFormat {
  import opened KeyOrder
  import opened KeyValue

  /** The record `write` emits for one pair. */
  function Record(e: Entry): string
  {
    e.key + ":" + e.value + "\n"
  }

  /** The records of `ps`, in order. */
  function Encode(ps: seq<Entry>): string
  {
    if ps == [] then "" else Encode(ps[..|ps| - 1]) + Record(ps[|ps| - 1])
  }

  /** A key or value that contains neither delimiter. */
  predicate Plain(s: string)
  {
    forall i :: 0 <= i < |s| ==> s[i] != ':' && s[i] != '\n'
  }

  predicate PlainPairs(ps: seq<Entry>)
  {
    forall i :: 0 <= i < |ps| ==> Plain(ps[i].key) && Plain(ps[i].value)
  }

  /** The first position of `c` in `s`, or `|s|` when there is none. */
  function Find(s: string, c: char): (i: nat)
    ensures i <= |s| && (i < |s| ==> s[i] == c)
    ensures forall j :: 0 <= j < i ==> s[j] != c
  {
    if s == [] then 0
    else if s[0] == c then 0
    else 1 + Find(s[1..], c)
  }

  /** `s.split('\n').filter(line => line)`: the non-empty lines. */
  function Lines(s: string): seq<string>
    decreases |s|
  {
    if s == [] then []
    else
      var i := Find(s, '\n');
      if i == |s| then [s]
      else (if i == 0 then [] else [s[..i]]) + Lines(s[i + 1..])
  }

  /** `line.split(':')[0]`: the key of a record line. */
  function KeyField(line: string): string
  {
    line[..Find(line, ':')]
  }

  /** `line.split(':')[1]`: the value of a record line, `None` for
      `undefined` when the line has no `':'`. */
  function ValueField(line: string): Option<string>
  {
    var i := Find(line, ':');
    if i == |line| then None
    else
      var rest := line[i + 1..];
      Some(rest[..Find(rest, ':')])
  }

  /** The lines of `Encode(ps)`: each record without its newline. */
  function RecordLines(ps: seq<Entry>): (r: seq<string>)
    ensures |r| == |ps|
  {
    seq(|ps|, i requires 0 <= i < |ps| => ps[i].key + ":" + ps[i].value)
  }

  /** Lines joined back, each followed by `'\n'`. */
  function Join(ls: seq<string>): string
  {
    if ls == [] then "" else Join(ls[..|ls| - 1]) + ls[|ls| - 1] + "\n"
  }

  /** A file made only of non-empty lines, each ended by `'\n'`: what
      `write` produces, and what `loadIndex` reads back byte for byte. */
  predicate WellFormed(c: string)
  {
    Join(Lines(c)) == c
  }

  /** A record as the index sees it: its key and its length in bytes. */
  datatype Framed = Framed(key: string, len: nat)

  function Framing(ps: seq<Entry>): (r: seq<Framed>)
    ensures |r| == |ps|
  {
    seq(|ps|, i requires 0 <= i < |ps| => Framed(ps[i].key, |Record(ps[i])|))
  }

  /** The records `loadIndex` sees: the key field and the line length plus
      its newline. */
  function LineFraming(ls: seq<string>): (r: seq<Framed>)
    ensures |r| == |ls|
  {
    seq(|ls|, i requires 0 <= i < |ls| => Framed(KeyField(ls[i]), |ls[i]| + 1))
  }

  /** The total length of the records. */
  function Bytes(fs: seq<Framed>): nat
  {
    if fs == [] then 0 else Bytes(fs[..|fs| - 1]) + fs[|fs| - 1].len
  }

  /** The sparse index built over records `fs` when `n` records came
      before them and their offsets are counted from `base`: record `i` is
      indexed when `(n + i) % 10 == 0`, at `base` plus the bytes before it,
      a later record with the same key overwriting an earlier one. */
  function SparseIndex(fs: seq<Framed>, n: nat, base: nat): map<string, nat>
  {
    if fs == [] then map[]
    else
      var i := |fs| - 1;
      var m := SparseIndex(fs[..i], n, base);
      if (n + i) % 10 == 0 then m[fs[i].key := base + Bytes(fs[..i])] else m
  }

  /** The index `loadIndex` rebuilds from a file's contents. */
  function Rebuilt(c: string): map<string, nat>
  {
    SparseIndex(LineFraming(Lines(c)), 0, 0)
  }

  /** The forward scan of `get`: the value of the first line whose key is
      `key`, stopping with `None` at the first line whose key is greater. */
  function Scan(ls: seq<string>, key: string): Option<string>
  {
    if ls == [] then None
    else if KeyField(ls[0]) == key then ValueField(ls[0])
    else if Less(key, KeyField(ls[0])) then None
    else Scan(ls[1..], key)
  }

  /** Where a read at byte `offset` starts: past the end, nothing is read. */
  function Tail(c: string, offset: nat): string
  {
    if offset <= |c| then c[offset..] else ""
  }

  /** `c` is the greatest non-empty key of `keys` at or below `key`: the
      key the index search of `get` settles on. */
  predicate IsClosest(c: string, keys: set<string>, key: string)
  {
    c in keys && c != "" && LessEq(c, key) &&
    forall d :: d in keys && LessEq(d, key) ==> LessEq(d, c)
  }

  /** What `get(key)` may answer with this index and file: `None` when no
      non-empty indexed key is at or below `key`, otherwise the scan from
      the offset of the closest indexed key. */
  ghost predicate Answers(index: map<string, nat>, c: string, key: string, r: Option<string>)
  {
    if !(exists d :: d in index && d != "" && LessEq(d, key)) then r == None
    else exists d :: IsClosest(d, index.Keys, key) && r == Scan(Lines(Tail(c, index[d])), key)
  }

  // ---------------------------------------------------------------------
  // The record format.

  lemma FindAppend(s: string, t: string, c: char)
    requires forall i :: 0 <= i < |s| ==> s[i] != c
    ensures Find(s + t, c) == |s| + Find(t, c)
    decreases |s|
  {
    if s != [] {
      assert (s + t)[1..] == s[1..] + t;
      FindAppend(s[1..], t, c);
    } else {
      assert s + t == t;
    }
  }

  /** A key and value free of delimiters come back out of their record line. */
  lemma {:induction false} FieldsOfRecord(e: Entry)
    requires Plain(e.key) && Plain(e.value)
    ensures KeyField(e.key + ":" + e.value) == e.key
    ensures ValueField(e.key + ":" + e.value) == Some(e.value)
  {
    ColonAt(e);
    NoColon(e.value);
  }

  /** The first `':'` of a record line is the one after its key. */
  lemma {:induction false} ColonAt(e: Entry)
    requires Plain(e.key)
    ensures var line := e.key + ":" + e.value;
      Find(line, ':') == |e.key| && line[..|e.key|] == e.key && line[|e.key| + 1..] == e.value
  {
    var line := e.key + ":" + e.value;
    assert line == e.key + (":" + e.value);
    FindAppend(e.key, ":" + e.value, ':');
    assert (":" + e.value)[0] == ':';
  }

  lemma {:induction false} NoColon(s: string)
    requires Plain(s)
    ensures Find(s, ':') == |s| && s[..Find(s, ':')] == s
  {
    assert s + "" == s;
    FindAppend(s, "", ':');
  }

  lemma LinesOfRecord(e: Entry, rest: string)
    requires Plain(e.key) && Plain(e.value)
    ensures Lines(Record(e) + rest) == [e.key + ":" + e.value] + Lines(rest)
  {
    var line := e.key + ":" + e.value;
    var s := Record(e) + rest;
    assert s == line + ("\n" + rest);
    assert forall i :: 0 <= i < |line| ==> line[i] != '\n' by {
      forall i | 0 <= i < |line| ensures line[i] != '\n' {
        if i < |e.key| { assert line[i] == e.key[i]; }
        else if i > |e.key| { assert line[i] == e.value[i - |e.key| - 1]; }
      }
    }
    FindAppend(line, "\n" + rest, '\n');
    assert s[..|line|] == line;
    assert s[|line| + 1..] == rest;
  }

  lemma {:induction false} FindPrefix(a: string, b: string, c: char)
    requires Find(a, c) < |a|
    ensures Find(a + b, c) == Find(a, c)
  {
    if a[0] != c {
      assert (a + b)[1..] == a[1..] + b;
      FindPrefix(a[1..], b, c);
    }
  }

  /** One step of splitting: the text before the first newline, if any,
      then the lines after it. */
  lemma LinesStep(s: string, i: nat)
    requires i < |s| && i == Find(s, '\n')
    ensures Lines(s) == (if i == 0 then [] else [s[..i]]) + Lines(s[i + 1..])
  {
  }

  lemma {:induction false} LinesAppend(a: string, b: string)
    requires a == [] || a[|a| - 1] == '\n'
    ensures Lines(a + b) == Lines(a) + Lines(b)
    decreases |a|
  {
    if a == [] {
      LinesNil(b);
    } else {
      var first, a' := LinesSplit(a, b);
      LinesAppend(a', b);
      GlueLines(Lines(a + b), Lines(a), first, Lines(a'), Lines(b), Lines(a' + b));
    }
  }

  lemma LinesNil(b: string)
    ensures Lines([] + b) == Lines([]) + Lines(b)
  {
    assert [] + b == b;
  }

  /** The first line of `a`, and what comes after it, read alone and
      followed by `b`. */
  lemma {:induction false} LinesSplit(a: string, b: string) returns (first: seq<string>, a': string)
    requires a != [] && a[|a| - 1] == '\n'
    ensures (a' == [] || a'[|a'| - 1] == '\n') && |a'| < |a|
    ensures Lines(a) == first + Lines(a') && Lines(a + b) == first + Lines(a' + b)
  {
    var i := Find(a, '\n');
    SplitFacts(a, b);
    first, a' := if i == 0 then [] else [a[..i]], a[i + 1..];
    LinesAt(a, i, a[..i], a[i + 1..]);
    LinesAt(a + b, i, a[..i], a[i + 1..] + b);
  }

  /** Where the first newline of `a` splits `a + b`. */
  lemma {:induction false} SplitFacts(a: string, b: string)
    requires a != [] && a[|a| - 1] == '\n'
    ensures var i := Find(a, '\n'); var a' := a[i + 1..];
      i < |a| && Find(a + b, '\n') == i && (a + b)[..i] == a[..i] && (a + b)[i + 1..] == a' + b &&
      (a' == [] || a'[|a'| - 1] == '\n')
  {
    var i := Find(a, '\n');
    FindPrefix(a, b, '\n');
    var s := a + b;
    assert s[..i] == a[..i];
    assert s[i + 1..] == a[i + 1..] + b;
    var a' := a[i + 1..];
    assert a' == [] || a'[|a'| - 1] == a[|a| - 1];
  }

  /** One step of splitting, with the line and the rest named. */
  lemma {:induction false} LinesAt(s: string, i: nat, line: string, rest: string)
    requires i < |s| && i == Find(s, '\n') && line == s[..i] && rest == s[i + 1..]
    ensures Lines(s) == (if i == 0 then [] else [line]) + Lines(rest)
  {
    LinesStep(s, i);
  }

  lemma GlueLines(whole: seq<string>, front: seq<string>, p: seq<string>, x: seq<string>, y: seq<string>, xy: seq<string>)
    requires front == p + x && whole == p + xy && xy == x + y
    ensures whole == front + y
  {
  }

  lemma EncodeEnds(ps: seq<Entry>)
    ensures Encode(ps) == [] || Encode(ps)[|Encode(ps)| - 1] == '\n'
  {
  }

  lemma LinesOfOneRecord(e: Entry)
    requires Plain(e.key) && Plain(e.value)
    ensures Lines(Record(e)) == [e.key + ":" + e.value]
  {
    LinesOfRecord(e, "");
    assert Record(e) + "" == Record(e);
  }

  /** `write` emits one record line per pair, in order. */
  lemma {:induction false} LinesOfEncode(ps: seq<Entry>)
    requires PlainPairs(ps)
    ensures Lines(Encode(ps)) == RecordLines(ps)
  {
    if ps != [] {
      var n := |ps| - 1;
      var pre, e := ps[..n], ps[n];
      assert PlainPairs(pre) by {
        forall i | 0 <= i < |pre| ensures Plain(pre[i].key) && Plain(pre[i].value) {
          assert pre[i] == ps[i];
        }
      }
      LinesOfEncode(pre);
      EncodeEnds(pre);
      LinesAppend(Encode(pre), Record(e));
      LinesOfOneRecord(e);
      LastSplit(ps);
      RecordLinesSnoc(pre, e);
    }
  }

  lemma LastSplit(ps: seq<Entry>)
    requires ps != []
    ensures ps == ps[..|ps| - 1] + [ps[|ps| - 1]]
  {
  }

  lemma {:induction false} RecordLinesSnoc(ps: seq<Entry>, e: Entry)
    ensures RecordLines(ps + [e]) == RecordLines(ps) + [e.key + ":" + e.value]
  {
    var a, b := RecordLines(ps + [e]), RecordLines(ps) + [e.key + ":" + e.value];
    forall i | 0 <= i < |a| ensures a[i] == b[i] {
      if i < |ps| {
        assert (ps + [e])[i] == ps[i];
      }
    }
  }

  lemma {:induction false} EncodeAppend(a: seq<Entry>, b: seq<Entry>)
    ensures Encode(a + b) == Encode(a) + Encode(b)
    decreases |b|
  {
    if b == [] {
      assert a + b == a;
    } else {
      var b0, e := EncodeStep(a, b);
      EncodeAppend(a, b0);
      GlueRecords(Encode(a + b), Encode(a), Encode(b), Encode(b0), Record(e), Encode(a + b0));
    }
  }

  /** The last record of `b`, written after `a` and alone. */
  lemma {:induction false} EncodeStep(a: seq<Entry>, b: seq<Entry>) returns (b0: seq<Entry>, e: Entry)
    requires b != []
    ensures |b0| < |b| && Encode(a + b) == Encode(a + b0) + Record(e) && Encode(b) == Encode(b0) + Record(e)
  {
    b0, e := b[..|b| - 1], b[|b| - 1];
    assert (a + b)[..|a + b| - 1] == a + b0;
  }

  lemma GlueRecords(whole: string, p: string, rest: string, x: string, y: string, px: string)
    requires whole == px + y && px == p + x && rest == x + y
    ensures whole == p + rest
  {
  }

  lemma FramingPrefix(ps: seq<Entry>, i: nat)
    requires i <= |ps|
    ensures Framing(ps)[..i] == Framing(ps[..i])
  {
    forall j | 0 <= j < i ensures Framing(ps)[..i][j] == Framing(ps[..i])[j] {
      assert ps[..i][j] == ps[j];
    }
  }

  lemma {:induction false} EncodeLength(ps: seq<Entry>)
    ensures |Encode(ps)| == Bytes(Framing(ps))
  {
    if ps != [] {
      var n := |ps| - 1;
      EncodeLength(ps[..n]);
      FramingPrefix(ps, n);
    }
  }

  lemma {:induction false} JoinAppend(a: seq<string>, b: seq<string>)
    ensures Join(a + b) == Join(a) + Join(b)
    decreases |b|
  {
    if b == [] {
      assert a + b == a;
    } else {
      var n := |b| - 1;
      assert (a + b)[..|a + b| - 1] == a + b[..n];
      JoinAppend(a, b[..n]);
    }
  }

  lemma {:induction false} JoinRecordLines(ps: seq<Entry>)
    ensures Join(RecordLines(ps)) == Encode(ps)
  {
    if ps != [] {
      var n := |ps| - 1;
      assert RecordLines(ps)[..n] == RecordLines(ps[..n]);
      JoinRecordLines(ps[..n]);
    }
  }

  lemma {:induction false} JoinLength(ls: seq<string>)
    ensures |Join(ls)| == Bytes(LineFraming(ls))
  {
    if ls != [] {
      var n := |ls| - 1;
      assert LineFraming(ls)[..n] == LineFraming(ls[..n]);
      JoinLength(ls[..n]);
    }
  }

  lemma LineFramingAppend(a: seq<string>, b: seq<string>)
    ensures LineFraming(a + b) == LineFraming(a) + LineFraming(b)
  {
    var l, r := LineFraming(a + b), LineFraming(a) + LineFraming(b);
    forall i | 0 <= i < |l| ensures l[i] == r[i] {
      if i < |a| {
        assert (a + b)[i] == a[i];
      } else {
        assert (a + b)[i] == b[i - |a|];
      }
    }
  }

  lemma FramingOfLines(ps: seq<Entry>)
    requires PlainPairs(ps)
    ensures LineFraming(RecordLines(ps)) == Framing(ps)
  {
    forall i | 0 <= i < |ps| ensures LineFraming(RecordLines(ps))[i] == Framing(ps)[i] {
      FieldsOfRecord(ps[i]);
    }
  }

  // ---------------------------------------------------------------------
  // The sparse index.

  /** A record is indexed exactly when the running count before it is a
      multiple of ten. */
  lemma {:induction false} SparseIndexKeys(fs: seq<Framed>, n: nat, base: nat, k: string)
    ensures k in SparseIndex(fs, n, base) <==> exists i :: 0 <= i < |fs| && (n + i) % 10 == 0 && fs[i].key == k
  {
    if fs != [] {
      var m := |fs| - 1;
      SparseIndexKeys(fs[..m], n, base, k);
      assert forall i :: 0 <= i < m ==> fs[..m][i] == fs[i];
    }
  }

  /** An indexed record whose key does not recur later sits at `base` plus
      the bytes before it. */
  lemma {:induction false} SparseIndexAt(fs: seq<Framed>, n: nat, base: nat, i: nat)
    requires i < |fs| && (n + i) % 10 == 0
    requires forall j :: i < j < |fs| ==> fs[j].key != fs[i].key
    ensures fs[i].key in SparseIndex(fs, n, base)
    ensures SparseIndex(fs, n, base)[fs[i].key] == base + Bytes(fs[..i])
  {
    var m := |fs| - 1;
    if i < m {
      SparseIndexAt(fs[..m], n, base, i);
      assert fs[..m][..i] == fs[..i];
    }
  }

  /** One more record of `write`'s loop: its line ends the encoding, and
      its frame is its key with the record's length. */
  lemma EncodeSnoc(ps: seq<Entry>, i: nat)
    requires i < |ps|
    ensures Encode(ps[..i + 1]) == Encode(ps[..i]) + Record(ps[i])
    ensures Framing(ps)[i] == Framed(ps[i].key, |Record(ps[i])|)
  {
    assert ps[..i + 1][..i] == ps[..i];
  }

  /** One more record: the prefix index, plus that record when it is
      due one. */
  lemma SparseIndexSnoc(fs: seq<Framed>, i: nat, n: nat, base: nat, idx0: map<string, nat>)
    requires i < |fs|
    ensures idx0 + SparseIndex(fs[..i + 1], n, base) ==
      if (n + i) % 10 == 0 then (idx0 + SparseIndex(fs[..i], n, base))[fs[i].key := base + Bytes(fs[..i])]
      else idx0 + SparseIndex(fs[..i], n, base)
    ensures Bytes(fs[..i + 1]) == Bytes(fs[..i]) + fs[i].len
  {
    assert fs[..i + 1][..i] == fs[..i];
  }

  lemma {:induction false} BytesAppend(a: seq<Framed>, b: seq<Framed>)
    ensures Bytes(a + b) == Bytes(a) + Bytes(b)
    decreases |b|
  {
    if b == [] {
      assert a + b == a;
    } else {
      var n := |b| - 1;
      assert (a + b)[..|a + b| - 1] == a + b[..n];
      BytesAppend(a, b[..n]);
    }
  }

  /** Indexing records in two runs, the second run continuing the count
      and the offsets of the first, builds the index of the whole. */
  lemma {:induction false} SparseIndexAppend(a: seq<Framed>, b: seq<Framed>, n: nat, base: nat)
    ensures SparseIndex(a + b, n, base) == SparseIndex(a, n, base) + SparseIndex(b, n + |a|, base + Bytes(a))
    decreases |b|
  {
    if b == [] {
      assert a + b == a;
      assert SparseIndex(a, n, base) + map[] == SparseIndex(a, n, base);
    } else {
      var m := |b| - 1;
      var ab := a + b;
      assert ab[..|ab| - 1] == a + b[..m];
      assert ab[|ab| - 1] == b[m];
      SparseIndexAppend(a, b[..m], n, base);
      BytesAppend(a, b[..m]);
    }
  }

  // ---------------------------------------------------------------------
  // Reading records back.

  /** On records with strictly ascending keys, the forward scan finds
      exactly the value stored under the key. */
  lemma {:induction false} ScanRecords(ps: seq<Entry>, key: string)
    requires StrictlySorted(ps) && PlainPairs(ps)
    ensures Scan(RecordLines(ps), key) == Lookup(ps, key)
  {
    if ps != [] {
      var ls := RecordLines(ps);
      FieldsOfRecord(ps[0]);
      assert ls[1..] == RecordLines(ps[1..]);
      if ps[0].key != key && Less(key, ps[0].key) {
        forall j | 0 <= j < |ps| ensures ps[j].key != key {
          if j > 0 {
            Transitive(key, ps[0].key, ps[j].key);
          }
          Irreflexive(key);
        }
        assert key !in KeySet(ps);
      } else if ps[0].key != key {
        ScanRecords(ps[1..], key);
      }
    }
  }

  /** Pairs before a key at or below the target cannot hold the target. */
  lemma LookupSuffix(ps: seq<Entry>, i: nat, key: string)
    requires StrictlySorted(ps) && i < |ps| && LessEq(ps[i].key, key)
    ensures Lookup(ps, key) == Lookup(ps[i..], key)
    decreases i
  {
    if i > 0 {
      assert Less(ps[0].key, ps[i].key);
      LessLessEq(ps[0].key, ps[i].key, key);
      Irreflexive(key);
      assert ps[1..][i - 1..] == ps[i..];
      LookupSuffix(ps[1..], i - 1, key);
    }
  }
}
