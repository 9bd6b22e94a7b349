/**
 * The log-structured merge tree engine of `LSMTree/lsm.js`: a memtable (a
 * JavaScript `Map`), a write-ahead log replayed on start-up, immutable
 * in-memory sorted tables searched by binary search, and the tree that
 * routes reads (memtable first, then tables newest to oldest), flushes the
 * memtable into a new table once it reaches its size limit, and compacts all
 * tables into one when there are more than two.
 */
module Lsm {
  import opened KeyOrder
  import opened KeyValue

  /** A log record `{ type, key, value }`. */
  datatype Operation = Operation(kind: string, key: string, value: string)

  /** One line of the log file: a record `JSON.parse` accepts, or a line it
      rejects (a torn or garbled write). */
  datatype LogLine = Parsed(op: Operation) | Unparsable

  /** The record `LSMTree.set` writes. */
  function SetOp(key: string, value: string): Operation
  {
    Operation("set", key, value)
  }

  /** The lines of the log file; a missing file has none. */
  function Lines(log: Option<seq<LogLine>>): seq<LogLine>
  {
    if log.Some? then log.value else []
  }

  /** Every line of the log parses. */
  predicate Replayable(ls: seq<LogLine>)
  {
    forall i :: 0 <= i < |ls| ==> ls[i].Parsed?
  }

  /** The parsed records of the log, in log order. */
  function Ops(ls: seq<LogLine>): (r: seq<Operation>)
    ensures |r| <= |ls|
    ensures Replayable(ls) ==> |r| == |ls|
  {
    if ls == [] then []
    else if ls[|ls| - 1].Parsed? then Ops(ls[..|ls| - 1]) + [ls[|ls| - 1].op]
    else Ops(ls[..|ls| - 1])
  }

  /** The `set` records as pairs, in log order; other records are skipped. */
  function SetEntries(ops: seq<Operation>): seq<Entry>
  {
    if ops == [] then []
    else if ops[|ops| - 1].kind == "set" then
      SetEntries(ops[..|ops| - 1]) + [Entry(ops[|ops| - 1].key, ops[|ops| - 1].value)]
    else SetEntries(ops[..|ops| - 1])
  }

  /** The memtable contents `WAL.recover` rebuilds from a log file: nothing
      when the file is missing or any line fails to parse, otherwise the map
      built by replaying the `set` records in order. */
  function Recovered(log: Option<seq<LogLine>>): seq<Entry>
  {
    if log.Some? && Replayable(log.value) then Collect(SetEntries(Ops(log.value))) else []
  }

  /** Reference meaning of a replay: the value of the last `set` record for
      `k`, read straight off the log lines. */
  function LastSet(ls: seq<LogLine>, k: string): Option<string>
  {
    if ls == [] then None
    else if ls[|ls| - 1].Parsed? && ls[|ls| - 1].op.kind == "set" && ls[|ls| - 1].op.key == k then
      Some(ls[|ls| - 1].op.value)
    else LastSet(ls[..|ls| - 1], k)
  }

  lemma {:induction false} SetEntriesLastSet(ls: seq<LogLine>, k: string)
    ensures LastValue(SetEntries(Ops(ls)), k) == LastSet(ls, k)
  {
    if ls != [] {
      SetEntriesLastSet(ls[..|ls| - 1], k);
    }
  }

  /** Recovery gives each key the value of its last `set` record in the log,
      and holds exactly the keys some `set` record names. */
  lemma RecoverLastSetWins(ls: seq<LogLine>, k: string)
    requires Replayable(ls)
    ensures Lookup(Recovered(Some(ls)), k) == LastSet(ls, k)
    ensures UniqueKeys(Recovered(Some(ls)))
  {
    CollectSpec(SetEntries(Ops(ls)));
    SetEntriesLastSet(ls, k);
  }

  /** A record that is not a `set` does not change what recovery rebuilds. */
  lemma RecoverIgnoresOthers(ls: seq<LogLine>, op: Operation)
    requires op.kind != "set"
    ensures Recovered(Some(ls + [Parsed(op)])) == Recovered(Some(ls))
  {
    LogSnoc(ls, op);
    var ops := Ops(ls);
    assert (ops + [op])[..|ops|] == ops;
  }

  /** Once a line fails to parse, no later record is ever recovered. */
  lemma RecoverCorruptLoses(ls: seq<LogLine>, i: nat, later: seq<LogLine>)
    requires i < |ls| && ls[i] == Unparsable
    ensures Recovered(Some(ls + later)) == []
  {
    assert (ls + later)[i] == Unparsable;
  }

  /** Appending a `set` record to a parseable log replays as one more
      `Map.set` on the recovered memtable: the log tracks the memtable. */
  lemma RecoverAppendSet(log: Option<seq<LogLine>>, key: string, value: string)
    requires Replayable(Lines(log))
    ensures Recovered(Some(Lines(log) + [Parsed(SetOp(key, value))])) == Assign(Recovered(log), key, value)
    ensures Replayable(Lines(log) + [Parsed(SetOp(key, value))])
  {
    var ls := Lines(log);
    LogSnoc(ls, SetOp(key, value));
    var es := SetEntriesSnoc(Ops(ls), SetOp(key, value));
    CollectSnoc(es, Entry(key, value));
  }

  /** One more line: the log stays parseable exactly when it was and the
      line parses, and a parsed line adds its record. */
  lemma LogSnoc(ls: seq<LogLine>, op: Operation)
    ensures Replayable(ls + [Parsed(op)]) <==> Replayable(ls)
    ensures Ops(ls + [Parsed(op)]) == Ops(ls) + [op]
  {
    var ls' := ls + [Parsed(op)];
    assert ls'[..|ls'| - 1] == ls;
    if Replayable(ls) {
      forall i | 0 <= i < |ls'| ensures ls'[i].Parsed? {
        if i < |ls| { assert ls'[i] == ls[i]; }
      }
    }
    if Replayable(ls') {
      forall i | 0 <= i < |ls| ensures ls[i].Parsed? {
        assert ls'[i] == ls[i];
      }
    }
  }

  /** One more `set` record: one more pair. */
  lemma SetEntriesSnoc(ops: seq<Operation>, op: Operation) returns (es: seq<Entry>)
    requires op.kind == "set"
    ensures es == SetEntries(ops) && SetEntries(ops + [op]) == es + [Entry(op.key, op.value)]
  {
    assert (ops + [op])[..|ops|] == ops;
    es := SetEntries(ops);
  }

  /** One more pair: one more `Map.set`. */
  lemma CollectSnoc(es: seq<Entry>, e: Entry)
    ensures Collect(es + [e]) == Assign(Collect(es), e.key, e.value)
  {
    assert (es + [e])[..|es|] == es;
  }

  /** The write buffer (`Memtable`): a `Map` from key to value, kept as its
      pairs in insertion order. */
  class Memtable {
    var data: seq<Entry>

    ghost predicate Valid()
      reads this
    {
      UniqueKeys(data)
    }

    constructor()
      ensures data == [] && Valid()
    {
      data := [];
    }

    /** `Map.set`: afterwards `get(key)` is `value`, every other key reads as
        before, and the size grows by one exactly when `key` is new. */
    method Set(key: string, value: string)
      requires Valid()
      modifies this
      ensures Valid() && data == Assign(old(data), key, value)
      ensures Get(key) == Some(value)
      ensures forall k :: k != key ==> Get(k) == old(Get(k))
      ensures Size() == if key in KeySet(old(data)) then old(Size()) else old(Size()) + 1
    {
      AssignSpec(data, key, value);
      data := Assign(data, key, value);
    }

    /** `Map.get`: the value stored under `key`, `None` for `undefined`. */
    function Get(key: string): (r: Option<string>)
      reads this
      ensures r.None? <==> key !in KeySet(data)
      ensures Valid() ==> forall v :: r == Some(v) <==> Entry(key, v) in data
    {
      if UniqueKeys(data) then
        LookupExact(data, key);
        Lookup(data, key)
      else
        Lookup(data, key)
    }

    method Clear()
      modifies this
      ensures data == [] && Valid()
    {
      data := [];
    }

    /** The pairs sorted by key: each pair of the map exactly once, in
        strictly ascending key order. */
    function Entries(): (r: seq<Entry>)
      reads this
      ensures Sorted(r) && multiset(r) == multiset(data)
      ensures Valid() ==> StrictlySorted(r) && forall k :: Lookup(r, k) == Get(k)
    {
      if UniqueKeys(data) then
        SortKeepsLookups(data);
        SortByKey(data)
      else
        SortByKey(data)
    }

    /** `Map.size`: the number of distinct keys. */
    function Size(): (r: nat)
      reads this
      ensures Valid() ==> r == |KeySet(data)|
    {
      if UniqueKeys(data) then
        UniqueKeysCount(data);
        |data|
      else
        |data|
    }
  }

  /** `content.trim().split('\n').map(JSON.parse)`: the records of every
      line, or failure as soon as one line does not parse. */
  method ParseLog(ls: seq<LogLine>) returns (ok: bool, ops: seq<Operation>)
    ensures ok <==> Replayable(ls)
    ensures ok ==> ops == Ops(ls)
  {
    ops := [];
    var i := 0;
    while i < |ls|
      invariant 0 <= i <= |ls|
      invariant Replayable(ls[..i]) && ops == Ops(ls[..i])
    {
      if ls[i].Unparsable? {
        return false, [];
      }
      ParseStep(ls, i);
      ops := ops + [ls[i].op];
      i := i + 1;
    }
    assert ls[..i] == ls;
    ok := true;
  }

  /** The replay loop of `recover`: a fresh memtable given every `set`
      record in log order. */
  method Replay(ops: seq<Operation>) returns (m: Memtable)
    ensures fresh(m) && m.Valid() && m.data == Collect(SetEntries(ops))
  {
    m := new Memtable();
    var j := 0;
    while j < |ops|
      invariant 0 <= j <= |ops|
      invariant m.Valid() && m.data == Collect(SetEntries(ops[..j]))
      invariant fresh(m)
    {
      ReplayStep(ops, j);
      if ops[j].kind == "set" {
        m.Set(ops[j].key, ops[j].value);
      }
      j := j + 1;
    }
    assert ops[..j] == ops;
  }

  lemma ParseStep(ls: seq<LogLine>, i: nat)
    requires i < |ls| && ls[i].Parsed? && Replayable(ls[..i])
    ensures Replayable(ls[..i + 1]) && Ops(ls[..i + 1]) == Ops(ls[..i]) + [ls[i].op]
  {
    assert ls[..i + 1][..i] == ls[..i];
  }

  /** One more record replayed: a `set` is one more `Map.set`, any other
      record changes nothing. */
  lemma ReplayStep(ops: seq<Operation>, j: nat)
    requires j < |ops|
    ensures Collect(SetEntries(ops[..j + 1])) ==
      if ops[j].kind == "set" then Assign(Collect(SetEntries(ops[..j])), ops[j].key, ops[j].value)
      else Collect(SetEntries(ops[..j]))
  {
    assert ops[..j + 1][..j] == ops[..j];
    var es := SetEntries(ops[..j]);
    if ops[j].kind == "set" {
      var e := Entry(ops[j].key, ops[j].value);
      assert (es + [e])[..|es|] == es;
    }
  }

  /** The write-ahead log, with the contents of its file (`None` while the
      file does not exist). */
  class WAL {
    var log: Option<seq<LogLine>>

    /** Opening a log does not touch the file; `disk` is what is on disk. */
    constructor(disk: Option<seq<LogLine>>)
      ensures log == disk
    {
      log := disk;
    }

    /** `fs.appendFile`: one more line, creating the file if needed. */
    method Append(op: Operation)
      modifies this
      ensures log == Some(Lines(old(log)) + [Parsed(op)])
    {
      log := Some(Lines(log) + [Parsed(op)]);
    }

    /** Replay the whole log into a fresh memtable; a missing file or any
        line that fails to parse gives an empty one. */
    method Recover() returns (m: Memtable)
      ensures fresh(m) && m.Valid() && m.data == Recovered(log)
    {
      m := new Memtable();
      if log.None? {
        return;
      }
      var ok, ops := ParseLog(log.value);
      if ok {
        m := Replay(ops);
      }
    }

    /** `fs.writeFile(logFile, '')`. */
    method Clear()
      modifies this
      ensures log == Some([])
    {
      log := Some([]);
    }
  }

  /** An immutable sorted table; the `Date.now()` id is not kept. */
  class SSTable {
    const data: seq<Entry>

    ghost predicate Valid()
    {
      Sorted(data)
    }

    /** `SSTable.fromEntries`: the pairs sorted by key. */
    constructor FromEntries(entries: seq<Entry>)
      ensures data == SortByKey(entries) && Valid()
    {
      data := SortByKey(entries);
    }

    /** Binary search for `key`: a value stored under `key` if there is one,
        `None` exactly when no pair has that key; on a table with unique keys
        it is the value paired with `key`. */
    method Get(key: string) returns (r: Option<string>)
      requires Valid()
      ensures r.Some? ==> Entry(key, r.value) in data
      ensures r.None? <==> key !in KeySet(data)
      ensures StrictlySorted(data) ==> r == Lookup(data, key)
    {
      var left, right := 0, |data| - 1;
      while left <= right
        invariant 0 <= left <= right + 1 <= |data|
        invariant forall i :: 0 <= i < left ==> Less(data[i].key, key)
        invariant forall i :: right < i < |data| ==> Less(key, data[i].key)
      {
        var mid := (left + right) / 2;
        var k, v := data[mid].key, data[mid].value;
        if k == key {
          r := Some(v);
          assert data[mid] == Entry(key, v);
          if StrictlySorted(data) {
            StrictlySortedUnique(data);
            LookupUnique(data, key, v);
          }
          return;
        }
        if Less(k, key) {
          forall i | 0 <= i <= mid ensures Less(data[i].key, key) {
            LessEqLess(data[i].key, k, key);
          }
          left := mid + 1;
        } else {
          NotLess(k, key);
          forall i | mid <= i < |data| ensures Less(key, data[i].key) {
            LessLessEq(key, k, data[i].key);
          }
          right := mid - 1;
        }
      }
      r := None;
      forall i | 0 <= i < |data| ensures data[i].key != key {
        Irreflexive(key);
      }
    }
  }

  /** The contents of a list of tables, oldest first. */
  function Tables(ts: seq<SSTable>): (r: seq<seq<Entry>>)
    ensures |r| == |ts| && forall i :: 0 <= i < |ts| ==> r[i] == ts[i].data
  {
    seq(|ts|, i requires 0 <= i < |ts| => ts[i].data)
  }

  /** The pairs of all tables, oldest first, as `compact` concatenates them. */
  function Concat(ts: seq<seq<Entry>>): seq<Entry>
  {
    if ts == [] then [] else Concat(ts[..|ts| - 1]) + ts[|ts| - 1]
  }

  /** The answer of the newest table that holds `k`. */
  function NewestHit(ts: seq<seq<Entry>>, k: string): Option<string>
  {
    if ts == [] then None
    else if Lookup(ts[|ts| - 1], k).Some? then Lookup(ts[|ts| - 1], k)
    else NewestHit(ts[..|ts| - 1], k)
  }

  /** The reference read path: the memtable's value if it has one, else the
      value in the newest table that has the key. */
  function Resolve(mem: seq<Entry>, ts: seq<seq<Entry>>, k: string): Option<string>
  {
    if Lookup(mem, k).Some? then Lookup(mem, k) else NewestHit(ts, k)
  }

  /** The tables after `compact`: unchanged when there are at most two,
      otherwise one table built from all pairs, newer pairs overwriting. */
  function AfterCompact(ts: seq<seq<Entry>>): seq<seq<Entry>>
  {
    if |ts| <= 2 then ts else [SortByKey(Collect(Concat(ts)))]
  }

  /** `NewestHit` answers from the highest-index table that contains `k`,
      and answers `None` exactly when no table does. */
  lemma {:induction false} NewestHitSpec(ts: seq<seq<Entry>>, k: string)
    ensures NewestHit(ts, k).None? <==> forall i :: 0 <= i < |ts| ==> k !in KeySet(ts[i])
    ensures NewestHit(ts, k).Some? ==>
      exists i :: 0 <= i < |ts| && Lookup(ts[i], k) == NewestHit(ts, k) &&
        forall j :: i < j < |ts| ==> k !in KeySet(ts[j])
  {
    if ts != [] {
      NewestHitSpec(ts[..|ts| - 1], k);
      if Lookup(ts[|ts| - 1], k).Some? {
        HitLast(ts, k);
      } else {
        HitEarlier(ts, k);
      }
    }
  }

  lemma HitLast(ts: seq<seq<Entry>>, k: string)
    requires ts != [] && Lookup(ts[|ts| - 1], k).Some?
    ensures NewestHit(ts, k).Some? && exists i :: 0 <= i < |ts| && k in KeySet(ts[i])
    ensures
      exists i :: 0 <= i < |ts| && Lookup(ts[i], k) == NewestHit(ts, k) &&
        forall j :: i < j < |ts| ==> k !in KeySet(ts[j])
  {
    var n := |ts| - 1;
    assert k in KeySet(ts[n]);
    assert Lookup(ts[n], k) == NewestHit(ts, k);
  }

  lemma HitEarlier(ts: seq<seq<Entry>>, k: string)
    requires ts != [] && Lookup(ts[|ts| - 1], k).None?
    requires var pre := ts[..|ts| - 1];
      (NewestHit(pre, k).None? <==> forall i :: 0 <= i < |pre| ==> k !in KeySet(pre[i])) &&
      (NewestHit(pre, k).Some? ==>
        exists i :: 0 <= i < |pre| && Lookup(pre[i], k) == NewestHit(pre, k) &&
          forall j :: i < j < |pre| ==> k !in KeySet(pre[j]))
    ensures NewestHit(ts, k).None? <==> forall i :: 0 <= i < |ts| ==> k !in KeySet(ts[i])
    ensures NewestHit(ts, k).Some? ==>
      exists i :: 0 <= i < |ts| && Lookup(ts[i], k) == NewestHit(ts, k) &&
        forall j :: i < j < |ts| ==> k !in KeySet(ts[j])
  {
    var n := |ts| - 1;
    var pre := ts[..n];
    assert forall i :: 0 <= i < n ==> pre[i] == ts[i];
    assert NewestHit(ts, k) == NewestHit(pre, k);
    if NewestHit(pre, k).Some? {
      var i :| 0 <= i < n && Lookup(pre[i], k) == NewestHit(pre, k) &&
        forall j :: i < j < n ==> k !in KeySet(pre[j]);
      assert Lookup(ts[i], k) == NewestHit(ts, k);
      assert forall j :: i < j < |ts| ==> k !in KeySet(ts[j]);
    } else {
      assert forall i :: 0 <= i < |ts| ==> k !in KeySet(ts[i]);
    }
  }

  /** Concatenating the tables and keeping the last value of each key is
      asking the newest table that holds it. */
  lemma {:induction false} ConcatLastValue(ts: seq<seq<Entry>>, k: string)
    requires forall i :: 0 <= i < |ts| ==> UniqueKeys(ts[i])
    ensures LastValue(Concat(ts), k) == NewestHit(ts, k)
  {
    if ts != [] {
      var n := |ts| - 1;
      ConcatLastValue(ts[..n], k);
      LastValueConcat(Concat(ts[..n]), ts[n], k);
      LastValueUnique(ts[n], k);
    }
  }

  /** Compaction keeps, for every key, the value of the newest table that
      holds it, and yields one table with strictly ascending keys. */
  lemma CompactSpec(ts: seq<seq<Entry>>)
    requires forall i :: 0 <= i < |ts| ==> StrictlySorted(ts[i])
    ensures forall i :: 0 <= i < |AfterCompact(ts)| ==> StrictlySorted(AfterCompact(ts)[i])
    ensures forall k :: NewestHit(AfterCompact(ts), k) == NewestHit(ts, k)
    ensures |ts| > 2 ==> |AfterCompact(ts)| == 1
  {
    if |ts| > 2 {
      forall i | 0 <= i < |ts| ensures UniqueKeys(ts[i]) {
        StrictlySortedUnique(ts[i]);
      }
      var c := Collect(Concat(ts));
      CollectSpec(Concat(ts));
      SortKeepsLookups(c);
      forall k ensures NewestHit(AfterCompact(ts), k) == NewestHit(ts, k) {
        ConcatLastValue(ts, k);
        assert AfterCompact(ts)[..0] == [];
      }
    }
  }

  /** Flushing moves the memtable into a new newest table and compacts;
      every key reads as before. */
  lemma FlushSpec(mem: seq<Entry>, ts: seq<seq<Entry>>)
    requires UniqueKeys(mem)
    requires forall i :: 0 <= i < |ts| ==> StrictlySorted(ts[i])
    ensures forall i :: 0 <= i < |ts + [SortByKey(SortByKey(mem))]| ==> StrictlySorted((ts + [SortByKey(SortByKey(mem))])[i])
    ensures forall k :: Resolve([], AfterCompact(ts + [SortByKey(SortByKey(mem))]), k) == Resolve(mem, ts, k)
  {
    var t := SortByKey(SortByKey(mem));
    SortKeepsLookups(mem);
    StrictlySortedUnique(SortByKey(mem));
    SortKeepsLookups(SortByKey(mem));
    var u := ts + [t];
    assert u[..|ts|] == ts;
    CompactSpec(u);
  }

  /** A write to the memtable is what the key then reads, and hides no
      other key. */
  lemma ResolveAssign(mem: seq<Entry>, ts: seq<seq<Entry>>, key: string, value: string)
    ensures Resolve(Assign(mem, key, value), ts, key) == Some(value)
    ensures forall k :: k != key ==> Resolve(Assign(mem, key, value), ts, k) == Resolve(mem, ts, k)
  {
    AssignSpec(mem, key, value);
  }

  /** The two loops of `compact`: all pairs, oldest table first, then one
      pair per key holding the value assigned last. */
  method MergeTables(ts: seq<seq<Entry>>) returns (unique: seq<Entry>)
    ensures unique == Collect(Concat(ts))
  {
    var merged: seq<Entry> := [];
    var i := 0;
    while i < |ts|
      invariant 0 <= i <= |ts|
      invariant merged == Concat(ts[..i])
    {
      assert ts[..i + 1][..i] == ts[..i];
      merged := merged + ts[i];
      i := i + 1;
    }
    assert ts[..i] == ts;
    unique := [];
    var j := 0;
    while j < |merged|
      invariant 0 <= j <= |merged|
      invariant unique == Collect(merged[..j])
    {
      assert merged[..j + 1][..j] == merged[..j];
      unique := Assign(unique, merged[j].key, merged[j].value);
      j := j + 1;
    }
    assert merged[..j] == merged;
  }

  /** The engine: memtable, log, and tables oldest first. */
  class LSMTree {
    const memtableSize: int
    var memtable: Memtable
    var wal: WAL
    var sstables: seq<SSTable>

    ghost predicate Valid()
      reads this, memtable
    {
      memtable.Valid() && forall i :: 0 <= i < |sstables| ==> StrictlySorted(sstables[i].data)
    }

    /** What `get(k)` answers in the current state. */
    function Value(k: string): Option<string>
      reads this, memtable
    {
      Resolve(memtable.data, Tables(sstables), k)
    }

    /** The log replays to exactly the memtable: a restart loses nothing
        the memtable holds. */
    ghost predicate Durable()
      reads this, memtable, wal
    {
      Replayable(Lines(wal.log)) && memtable.data == Recovered(wal.log)
    }

    /** `disk` is the log file found in the directory. */
    constructor(memtableSize: int, disk: Option<seq<LogLine>>)
      ensures this.memtableSize == memtableSize && wal.log == disk
      ensures memtable.data == [] && sstables == [] && Valid()
    {
      this.memtableSize := memtableSize;
      memtable := new Memtable();
      wal := new WAL(disk);
      sstables := [];
    }

    /** Rebuild the memtable from the log; after a restart of a durable
        state the memtable is what it was. */
    method Init()
      requires Valid()
      modifies this
      ensures Valid() && fresh(memtable) && wal == old(wal) && sstables == old(sstables)
      ensures memtable.data == Recovered(wal.log)
      ensures old(Durable()) ==> Durable() && memtable.data == old(memtable.data)
    {
      memtable := wal.Recover();
    }

    /** Log the write, apply it, and flush once the memtable reaches its
        limit. */
    method Set(key: string, value: string)
      requires Valid()
      modifies this, memtable, wal
      ensures Valid() && memtable == old(memtable) && wal == old(wal)
      ensures Value(key) == Some(value)
      ensures forall k :: k != key ==> Value(k) == old(Value(k))
      ensures memtable.Size() < memtableSize || memtable.Size() == 0
      ensures old(Durable()) ==> Durable()
      ensures |Assign(old(memtable.data), key, value)| < memtableSize ==>
        memtable.data == Assign(old(memtable.data), key, value) &&
        wal.log == Some(Lines(old(wal.log)) + [Parsed(SetOp(key, value))]) &&
        sstables == old(sstables)
      ensures |Assign(old(memtable.data), key, value)| >= memtableSize ==>
        memtable.data == [] && wal.log == Some([]) &&
        Tables(sstables) == AfterCompact(old(Tables(sstables)) + [SortByKey(SortByKey(Assign(old(memtable.data), key, value)))])
    {
      ResolveAssign(memtable.data, Tables(sstables), key, value);
      Write(key, value);
      if memtable.Size() >= memtableSize {
        Flush();
        assert Recovered(Some([])) == [];
      }
    }

    /** The first two steps of `set`: log the write, then apply it to the
        memtable; a durable state stays durable. */
    method Write(key: string, value: string)
      requires Valid()
      modifies memtable, wal
      ensures Valid() && sstables == old(sstables)
      ensures memtable.data == Assign(old(memtable.data), key, value)
      ensures wal.log == Some(Lines(old(wal.log)) + [Parsed(SetOp(key, value))])
      ensures old(Durable()) ==> Durable()
    {
      if Durable() {
        RecoverAppendSet(wal.log, key, value);
      }
      wal.Append(SetOp(key, value));
      memtable.Set(key, value);
    }

    /** The memtable's value if defined, else the newest table's. */
    method Get(key: string) returns (r: Option<string>)
      requires Valid()
      ensures r == Value(key)
    {
      r := memtable.Get(key);
      if r.Some? {
        return;
      }
      var ts := Tables(sstables);
      var i := |sstables| - 1;
      assert ts[..i + 1] == ts;
      while i >= 0
        invariant -1 <= i < |sstables|
        invariant NewestHit(ts, key) == NewestHit(ts[..i + 1], key)
      {
        assert ts[..i + 1][..i] == ts[..i];
        r := sstables[i].Get(key);
        if r.Some? {
          return;
        }
        i := i - 1;
      }
      r := None;
    }

    /** Move a non-empty memtable into a new newest table, empty the
        memtable and the log, then compact; every key reads as before. */
    method Flush()
      requires Valid()
      modifies this, memtable, wal
      ensures Valid() && memtable == old(memtable) && wal == old(wal)
      ensures old(memtable.data) == [] ==>
        memtable.data == [] && wal.log == old(wal.log) && sstables == old(sstables)
      ensures old(memtable.data) != [] ==>
        memtable.data == [] && wal.log == Some([]) &&
        Tables(sstables) == AfterCompact(old(Tables(sstables)) + [SortByKey(SortByKey(old(memtable.data)))])
      ensures forall k :: Value(k) == old(Value(k))
    {
      var entries := memtable.Entries();
      if |entries| == 0 {
        return;
      }
      FlushSpec(memtable.data, Tables(sstables));
      Retire(entries);
      Compact();
    }

    /** The middle of `flush`: the pairs become the newest table, and the
        memtable and the log are emptied. */
    method Retire(entries: seq<Entry>)
      requires Valid() && entries == memtable.Entries()
      modifies this, memtable, wal
      ensures Valid() && memtable == old(memtable) && wal == old(wal)
      ensures memtable.data == [] && wal.log == Some([])
      ensures Tables(sstables) == old(Tables(sstables)) + [SortByKey(SortByKey(old(memtable.data)))]
    {
      assert entries == SortByKey(memtable.data);
      StrictlySortedUnique(entries);
      var t := new SSTable.FromEntries(entries);
      sstables := sstables + [t];
      assert Tables(sstables) == old(Tables(sstables)) + [t.data];
      memtable.Clear();
      wal.Clear();
    }

    /** With more than two tables, merge them all into one in which each key
        has the value of the newest table holding it. */
    method Compact()
      requires Valid()
      modifies this
      ensures Valid() && memtable == old(memtable) && wal == old(wal)
      ensures Tables(sstables) == AfterCompact(old(Tables(sstables)))
      ensures forall k :: Value(k) == old(Value(k))
    {
      CompactSpec(Tables(sstables));
      if |sstables| <= 2 {
        return;
      }
      var unique := MergeTables(Tables(sstables));
      var t := new SSTable.FromEntries(unique);
      sstables := [t];
      assert Tables(sstables) == [t.data];
    }
  }
}
