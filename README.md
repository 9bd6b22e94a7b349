# A verified model of a small storage-engine repository

This project models three components of a JavaScript repository and proves
what each one promises. Each component is sequential.

- **The LSM key-value engine** (`LSMTree/lsm.js`) has four parts:
  - a write buffer (`Memtable`), a map from key to value;
  - a write-ahead log (`WAL`) of `{type, key, value}` records;
  - immutable sorted tables (`SSTable`) with a binary-search `get`;
  - the engine (`LSMTree`). Its `set` logs, applies and flushes. Its `get`
    reads the memtable first, then the tables newest to oldest. Its `flush`
    and `compact` move and merge data without changing any answer of `get`.
- **The on-disk sorted table** (`SSTable/sst.js`):
  - `write` appends `key:value\n` records and a sparse index that keeps one
    byte offset every ten records;
  - `get` starts at the greatest indexed key at or below the target and
    scans forward;
  - `loadIndex` rebuilds the index from the file.
- **The CLRS B-tree** (`Btree/btree.js`) of minimum degree `t`:
  `search`, `traverse`, `insert` with proactive splits, and `delete` with
  predecessor replacement, borrowing and merging.

## Modelling decisions

- **One key order.** The source sorts with `localeCompare` but compares
  with `<`, `<=`, `>` and `===`. The model uses one total order for both:
  lexicographic order on strings by character code (`KeyOrder.Less`). For
  characters below U+10000 this is the order of the JavaScript string
  operators. JavaScript compares UTF-16 code units, so the two orders differ
  for characters above U+FFFF.
- **Keys and values** of the storage engine are strings (`seq<char>`). Each
  character stands for one byte, so a string's length is its byte length.
  The record format only round-trips keys and values that contain neither
  `':'` nor `'\n'` (`SstFormat.Plain`). The lemmas that need this say so in
  their requirements.
- **The memtable** is a class whose field `data` is a sequence of pairs.
  The keys are unique and kept in insertion order, as a JavaScript `Map`
  keeps them. `Map.set` is `KeyValue.Assign`: it overwrites in place or
  appends.
- **The write-ahead log** is a class whose field `log` is the file. It is
  `None` when the file is missing, otherwise a sequence of lines. A line
  either parses to a record or does not (`Unparsable`). `recover` runs
  `JSON.parse` over every line inside one `try`. So one bad line anywhere
  empties the recovered memtable, and the model keeps that: no record is
  recovered from a log with any unparsable line. A design that stops the
  replay at the first bad line would keep the earlier records. The code
  does not do that, and the model follows the code.
- **An in-memory table** (`Lsm.SSTable`) is a class whose `data` never
  changes after `fromEntries`.
- **The on-disk table** (`Sst.SSTable`) is a class with the fields
  `file: Option<string>`, `index: map<string, nat>` and `size: nat`.
  `write`, `get` and `loadIndex` are methods with the source's loops.
- **B-tree nodes** are datatype values: keys, children and the leaf flag.
  A tree shares no node between two parents, so returning a rebuilt node
  stands for updating it in place. `BTree` is a class that holds the root.
  `insert` and `delete` reassign the root. `search`, `_searchNode`,
  `traverse`, `_traverseNode`, `_insertNonFull` and its key-shifting loop
  are methods with loops or recursion. `delete` and its helpers are
  functions from a node to the node that replaces it. They return an
  `Outcome`, either `Ok(node)` or a `Failed` fault. A fault marks the two
  paths where the source goes wrong. `UndefinedChild`: it reads
  `children[-1]` and throws. `UndefinedKey`: `_getPredecessor` returns the
  `undefined` last key of an empty leaf. The source writes it into the tree
  and deletes it below without any error, so the tree then holds
  `undefined`. B-tree keys are
  integers, standing for JavaScript numbers compared with `<`, `>` and
  `===`.

## Model

| member | source | states |
|---|---|---|
| KeyOrder.Transitive | LSMTree/lsm.js:82 | the key order is transitive, so a binary search can discard a half |
| KeyOrder.Trichotomy | SSTable/sst.js:67-71 | two keys are equal or one is below the other |
| KeyValue.Lookup | LSMTree/lsm.js:14-16 | `Map.get`: a found value is paired with the key in the data; nothing is found exactly when the key is absent |
| KeyValue.LookupUnique | LSMTree/lsm.js:14-16 | with unique keys, a lookup answers `v` exactly when the pair `(k, v)` is stored |
| KeyValue.Assign | LSMTree/lsm.js:10-12 | `Map.set` on the pair sequence: overwrites the key's pair in place, or appends it when the key is new (properties in `AssignSpec`) |
| KeyValue.AssignSpec | LSMTree/lsm.js:10-12 | after `Map.set(k, v)`: `k` reads `v`, every other key reads as before, the key set gains `k`, the size grows by one exactly when `k` was new, and keys stay unique |
| KeyValue.UniqueKeysCount | LSMTree/lsm.js:26-28 | with unique keys the number of pairs is the number of distinct keys |
| KeyValue.SortByKey | LSMTree/lsm.js:23 | the sort returns a key-sorted permutation, strictly sorted when the keys are unique |
| KeyValue.SortKeepsLookups | LSMTree/lsm.js:22-24 | sorting key-unique pairs keeps the key set and every lookup, and gives strictly increasing keys |
| KeyValue.Collect | LSMTree/lsm.js:158-161 | filling a map from pairs with `Map.set` in order (properties in `CollectSpec` and `LastValueConcat`) |
| KeyValue.CollectSpec | LSMTree/lsm.js:158-161 | filling a map from pairs in order keeps each key's last value, has unique keys and the same key set |
| KeyValue.LastValueConcat | LSMTree/lsm.js:153-161 | in a concatenation a key's last value comes from the later part when it holds the key |
| Lsm.Ops | LSMTree/lsm.js:44 | the parsed records are no more than the lines, and exactly as many when every line parses |
| Lsm.SetEntriesLastSet | LSMTree/lsm.js:46-50 | the last value among the `set` pairs is the value of the key's last `set` record |
| Lsm.RecoverLastSetWins | LSMTree/lsm.js:41-55 | recovering a parseable log gives each key the value of its last `set` record, with unique keys |
| Lsm.RecoverIgnoresOthers | LSMTree/lsm.js:47-49 | a record whose type is not `set` does not change what recovery rebuilds |
| Lsm.RecoverCorruptLoses | LSMTree/lsm.js:43-54 | once any line fails to parse, recovery yields an empty memtable whatever follows |
| Lsm.RecoverAppendSet | LSMTree/lsm.js:37-50 | appending a `set` record to a parseable log recovers as one more `Map.set` and stays parseable |
| Lsm.LogSnoc | LSMTree/lsm.js:37-39 | one more parsed line keeps the log parseable exactly when it was and adds exactly that record |
| Lsm.Memtable.constructor | LSMTree/lsm.js:6-8 | a new memtable is empty |
| Lsm.Memtable.Set | LSMTree/lsm.js:10-12 | the data becomes the `Map.set` result; `get(key)` is `value`; every other key reads as before; the size grows by one exactly when the key was new |
| Lsm.Memtable.Get | LSMTree/lsm.js:14-16 | `undefined` exactly when the key is absent; otherwise the value stored with it |
| Lsm.Memtable.Clear | LSMTree/lsm.js:18-20 | the memtable is empty afterwards |
| Lsm.Memtable.Entries | LSMTree/lsm.js:22-24 | a key-sorted permutation of the pairs; with unique keys it is strictly sorted and answers every lookup like `get` |
| Lsm.Memtable.Size | LSMTree/lsm.js:26-28 | the number of distinct keys |
| Lsm.Recovered | LSMTree/lsm.js:41-55 | what `recover` rebuilds from a file: nothing for a missing file or any unparsable line, otherwise `Map.set` for every `set` record in log order (properties in `RecoverLastSetWins`, `RecoverIgnoresOthers`, `RecoverCorruptLoses` and `RecoverAppendSet`) |
| Lsm.ParseLog | LSMTree/lsm.js:43-44 | parsing succeeds exactly when every line parses, and then gives the records in log order |
| Lsm.Replay | LSMTree/lsm.js:45-50 | the replay loop builds a fresh memtable equal to `Map.set` applied to every `set` record in log order |
| Lsm.ParseStep | LSMTree/lsm.js:44 | one more parsed line extends the parsed prefix by that record |
| Lsm.ReplayStep | LSMTree/lsm.js:46-50 | one more record replayed is one more `Map.set` for a `set` record and nothing otherwise |
| Lsm.WAL.constructor | LSMTree/lsm.js:33-35 | opening a log does not touch the file |
| Lsm.WAL.Append | LSMTree/lsm.js:37-39 | the file gains exactly one line holding the record, and is created if missing |
| Lsm.WAL.Recover | LSMTree/lsm.js:41-55 | a fresh, valid memtable equal to what the file recovers to: empty for a missing file or any unparsable line |
| Lsm.WAL.Clear | LSMTree/lsm.js:57-59 | the file exists and is empty |
| Lsm.SSTable.FromEntries | LSMTree/lsm.js:69-73 | the table's data is the pairs sorted by key |
| Lsm.SSTable.Get | LSMTree/lsm.js:75-86 | a found value is paired with the key; `undefined` exactly when the key is absent; on strictly sorted data the answer is the stored value; the loop keeps the key, if present, between `left` and `right` |
| Lsm.NewestHitSpec | LSMTree/lsm.js:122-128 | the table scan finds nothing exactly when no table holds the key, and otherwise answers from the highest-index table that holds it |
| Lsm.HitLast | LSMTree/lsm.js:123-125 | when the newest table holds the key, the scan answers from it |
| Lsm.HitEarlier | LSMTree/lsm.js:123-126 | when the newest table lacks the key, the answer is that of the older tables |
| Lsm.ConcatLastValue | LSMTree/lsm.js:152-161 | over key-unique tables, the last value in their concatenation is the newest table's value |
| Lsm.CompactSpec | LSMTree/lsm.js:147-166 | compaction keeps every table strictly sorted, leaves one table when there were more than two, and keeps the newest-table answer for every key |
| Lsm.FlushSpec | LSMTree/lsm.js:131-145 | moving the memtable into a new newest table and compacting keeps every answer of `get` |
| Lsm.Resolve | LSMTree/lsm.js:117-129 | the answer of `get`: the memtable's value when defined, else the newest table's (properties in `ResolveAssign`, `FlushSpec` and `Lsm.LSMTree.Get`) |
| Lsm.AfterCompact | LSMTree/lsm.js:147-166 | the tables after `compact`: unchanged for at most two tables, otherwise one table of the merged map's sorted pairs (properties in `CompactSpec` and `MergeTables`) |
| Lsm.ResolveAssign | LSMTree/lsm.js:104-120 | after a memtable write the key reads the new value and every other key reads as before |
| Lsm.MergeTables | LSMTree/lsm.js:152-161 | the two loops of `compact` build the map filled from all pairs, oldest table first |
| Lsm.LSMTree.constructor | LSMTree/lsm.js:91-97 | an empty memtable, no tables, and the log file found on disk |
| Lsm.LSMTree.Init | LSMTree/lsm.js:99-102 | the memtable becomes what the log recovers to; after a durable state that is the same contents |
| Lsm.LSMTree.Write | LSMTree/lsm.js:105-109 | the log gains exactly the `set` record, then the memtable gains the pair; a durable state stays durable |
| Lsm.LSMTree.Set | LSMTree/lsm.js:104-115 | `get(key)` is `value` afterwards and every other key reads as before; below the limit the log gains one record and the tables stay; at the limit the memtable and log are emptied into a compacted new table; the memtable stays below the limit, or is empty (every `set` flushes when the limit is 0 or less) |
| Lsm.LSMTree.Get | LSMTree/lsm.js:117-129 | the memtable's value if defined, else the value of the newest table holding the key, else `undefined` |
| Lsm.LSMTree.Flush | LSMTree/lsm.js:131-145 | an empty memtable changes nothing; otherwise one new table from the sorted pairs, an empty memtable and log, then compaction; every key reads as before |
| Lsm.LSMTree.Retire | LSMTree/lsm.js:136-141 | the sorted pairs become the newest table, and the memtable and log are emptied |
| Lsm.LSMTree.Compact | LSMTree/lsm.js:147-166 | the tables become their compaction, and every key reads as before |
| SstFormat.Find | SSTable/sst.js:66 | the first position of the delimiter, or the length when there is none |
| SstFormat.FieldsOfRecord | SSTable/sst.js:66 | splitting a record line on `':'` gives back the key and the value |
| SstFormat.LinesOfRecord | SSTable/sst.js:21 | a record followed by more text splits into the record's line and the rest's lines |
| SstFormat.LinesAppend | SSTable/sst.js:88 | text ending in a newline splits into lines independently of what is appended |
| SstFormat.LinesOfEncode | SSTable/sst.js:20-22 | the lines of the encoded batch are exactly the `key:value` records in order |
| SstFormat.EncodeAppend | SSTable/sst.js:22 | encoding two batches is encoding each and concatenating |
| SstFormat.JoinRecordLines | SSTable/sst.js:21-22 | the record lines, each followed by a newline, are the encoding |
| SstFormat.EncodeLength | SSTable/sst.js:29 | the encoding is as long as the sum of the record lengths the offsets add up |
| SstFormat.JoinLength | SSTable/sst.js:99 | lines with their newlines are as long as the sum `loadIndex` adds up |
| SstFormat.FramingOfLines | SSTable/sst.js:95-99 | the key field and line length `loadIndex` sees are the key and record length `write` used |
| SstFormat.SparseIndexKeys | SSTable/sst.js:25-27 | a key is indexed exactly when some record with that key has a running count that is a multiple of 10 |
| SstFormat.SparseIndexAt | SSTable/sst.js:25-29 | an indexed record with no later duplicate maps to the base plus the bytes before it |
| SstFormat.SparseIndexAppend | SSTable/sst.js:25-30 | indexing two runs of records is indexing each, the second with the count and offset the first leaves |
| SstFormat.SparseIndex | SSTable/sst.js:25-29 | the index `write` builds: the key of every record whose running count is a multiple of 10, at the base plus the bytes before it (properties in `SparseIndexKeys`, `SparseIndexAt` and `SparseIndexAppend`) |
| SstFormat.Rebuilt | SSTable/sst.js:94-101 | the index `loadIndex` builds from the lines: the same rule over the line keys and lengths (related to `SparseIndex` by `FramingOfLines` and `Sst.WriteLoadIndex`) |
| SstFormat.Scan | SSTable/sst.js:65-74 | the forward scan: the value of the first record whose key matches, stopping at the first greater key (property in `ScanRecords`) |
| SstFormat.ScanRecords | SSTable/sst.js:65-74 | the forward scan over strictly sorted records returns exactly the value stored with the key |
| SstFormat.LookupSuffix | SSTable/sst.js:43-58 | starting from a record whose key is at or below the target loses no answer |
| Sst.SortedBatch | SSTable/sst.js:14 | the sorted copy is as long as the batch |
| Sst.IndexStep | SSTable/sst.js:25-30 | one turn of the write loop extends the index and the offset by one record |
| Sst.ClosestKey | SSTable/sst.js:40-48 | no key is kept exactly when no indexed key is at or below the target; otherwise the greatest such key and its offset |
| Sst.NoneBelow | SSTable/sst.js:50 | when the search keeps nothing or the empty key, no non-empty indexed key is at or below the target |
| Sst.ScanFrom | SSTable/sst.js:58-78 | the line loop returns the value of the first line whose key matches, and stops at the first greater key |
| Sst.ScanAnswers | SSTable/sst.js:52-78 | the scan from the closest indexed key is an answer `get` may give |
| Sst.SSTable.constructor | SSTable/sst.js:5-9 | an empty index and a size of 0, with whatever file is on disk |
| Sst.SSTable.WriteFrom | SSTable/sst.js:12-35 | the file gains the sorted batch's records; the size grows by the batch's length; the index gains one entry per record counted at a multiple of 10, with offsets from the given base |
| Sst.SSTable.AppendRecords | SSTable/sst.js:20-34 | the record loop and the append, over an already sorted batch, as in `WriteFrom` |
| Sst.SSTable.Write | SSTable/sst.js:12-35 | `write` as written: the index offsets count from 0 in every call |
| Sst.SSTable.WriteAtEnd | SSTable/sst.js:12-35 | `write` with offsets counted from the end of the file; keeps the index consistent with the file |
| Sst.SSTable.Get | SSTable/sst.js:38-82 | nothing when no non-empty indexed key is at or below the target; otherwise the forward scan from the closest indexed key's offset |
| Sst.SSTable.LoadIndex | SSTable/sst.js:85-111 | the file is unchanged; a missing file or a successful read rebuilds the index, one entry per line at a multiple of 10, and the size from the non-empty lines; any other read error fails and leaves the state unchanged |
| Sst.PlainSorted | SSTable/sst.js:14 | sorting keeps keys and values free of delimiters |
| Sst.JoinEnds | SSTable/sst.js:21-22 | an encoding is empty or ends with a newline |
| Sst.AppendConsistent | SSTable/sst.js:85-101 | appending a batch to a well-formed file keeps it well formed; rebuilding the index then gives the old index plus the batch's entries at file offsets; the line count grows by the batch's length |
| Sst.IndexOfAppend | SSTable/sst.js:94-101 | rebuilding over two runs of records is the first run's index plus the second's at its count and offset |
| Sst.AppendLines | SSTable/sst.js:88 | the lines of a well-formed file plus a batch are the file's lines plus the records |
| Sst.WriteLoadIndex | SSTable/sst.js:94-101 | round trip: after one write into an empty file, `loadIndex` rebuilds exactly the index and size that `write` built |
| Sst.TailAtRecord | SSTable/sst.js:55-59 | reading from the offset of record `i` gives the encoding of the records from `i` on |
| Sst.ReadFromIndexed | SSTable/sst.js:52-78 | the scan from the closest indexed key's offset finds exactly the stored value of the key |
| Sst.IndexedRecord | SSTable/sst.js:25-27 | an indexed key is the key of a record, and its offset is the bytes before that record |
| Sst.ReadAt | SSTable/sst.js:58-78 | scanning from the offset of record `i` answers the lookup in the records from `i` on |
| Sst.ReadBelowIndex | SSTable/sst.js:50 | when no non-empty indexed key is at or below the target, the key is not stored |
| Sst.WriteGet | SSTable/sst.js:38-82 | round trip: after one write into an empty file, `get` returns the written value of every key and nothing for any other |
| Sst.WriteIndexDrift | SSTable/sst.js:16-29 | a second write into a non-empty file records an offset that is not the record's place in the file |
| Sst.FirstIndexed | SSTable/sst.js:25-27 | when the running count is a multiple of 10, the batch's first record is indexed at the base offset |
| BtreeNodes.Inorder | Btree/btree.js:190-201 | `_traverseNode` as a function: each child's sequence followed by the key after it, then the last child's (properties in `WeaveJoin`, `InorderHoldsKeys` and `Btree.BTree.TraverseNode`) |
| BtreeNodes.Slot | Btree/btree.js:21-24 | the scan stops at the first key not below the target: every earlier key is below it |
| BtreeNodes.SlotChild | Btree/btree.js:28-31 | when the node does not hold the key, the key is in the subtree exactly when it is in the child the scan stopped at |
| BtreeNodes.KeysSorted | Btree/btree.js:22 | a node of a sorted tree has sorted keys |
| BtreeNodes.InorderHoldsKeys | Btree/btree.js:190-201 | a node with keys has a non-empty in-order sequence |
| BtreeNodes.WeaveJoin | Btree/btree.js:190-201 | the in-order sequence of two runs of children with a key between them is the two sequences around the key |
| BtreeInsert.InsertSorted | Btree/btree.js:51-56 | sorted insertion gives one more element, the same multiset plus the key, and keeps a sorted sequence sorted |
| BtreeInsert.SortedUnique | Btree/btree.js:184-201 | two sorted sequences with the same multiset are equal |
| BtreeInsert.SplitChild | Btree/btree.js:72-83 | the median goes into the parent at `i` and the sibling at `i + 1`; the child keeps exactly its first `t - 1` keys and the sibling gets exactly the last `t - 1`; both keep the child's leaf flag; an internal child with `2t` children keeps the first `t` and the sibling gets the last `t` |
| BtreeInsert.SplitChildKeeps | Btree/btree.js:72-83 | a split keeps the parent's in-order sequence, its shape and the key bound, and the minimum fill |
| BtreeInsert.SplitInorder | Btree/btree.js:72-83 | a split does not change the in-order sequence |
| BtreeInsert.SplitShape | Btree/btree.js:76-82 | a split keeps every leaf at the same depth, one more child than keys, and at most `2t - 1` keys per node |
| BtreeInsert.SplitMinFilled | Btree/btree.js:76-81 | both halves of a split hold `t - 1` keys, so the minimum fill is kept |
| BtreeInsert.InsertNonFull | Btree/btree.js:48-70 | on a node with room: a well-formed, bounded, sorted result of the same height whose multiset gains exactly the key |
| BtreeInsert.ChildFor | Btree/btree.js:57-67 | the child chosen, after a split if it was full, has room and lies where the key belongs |
| BtreeInsert.ScanDown | Btree/btree.js:58-61 | the scan from the last key stops after the last key not above the target |
| BtreeInsert.SplitChoice | Btree/btree.js:62-67 | after splitting a full child, the step right of the median when the key is above it keeps the key between its neighbours |
| BtreeInsert.ShiftIn | Btree/btree.js:51-56 | shifting the larger keys up and placing the key gives one more key, and on sorted keys the sorted insertion |
| BtreeInsert.InsertAtGap | Btree/btree.js:56 | placing the key after the keys not above it is the sorted insertion |
| Btree.ScanIsSlot | Btree/btree.js:21-24 | the scan of `_searchNode` and `_delete` stops at the slot |
| Btree.RootSplit | Btree/btree.js:37-42 | a full root split below a new root gives one key, one more level, the same in-order sequence and the kept fill |
| Btree.InsertedIs | Btree/btree.js:35-70 | a sorted result whose multiset gains exactly the key is the sorted insertion |
| Btree.InsertRoot | Btree/btree.js:35-46 | insert on a root: a well-formed sorted tree whose in-order sequence is the sorted insertion; one level higher exactly when the root was full |
| Btree.RootDelete | Btree/btree.js:86-91 | a finished delete keeps a well-formed sorted tree with nothing new; a key-less internal root's only child is such a tree with the same sequence; from an occupied root exactly one occurrence of the key is gone |
| Btree.BTree.constructor | Btree/btree.js:10-13 | an empty leaf root of height 0, valid and filled |
| Btree.BTree.Search | Btree/btree.js:16-18 | a node is found exactly when the key is in `traverse()`, and the node holds the key |
| Btree.BTree.SearchNode | Btree/btree.js:20-32 | a node is found exactly when the key is in the subtree, and the node holds the key |
| Btree.BTree.Traverse | Btree/btree.js:184-188 | the in-order sequence of the keys, in ascending order |
| Btree.BTree.TraverseNode | Btree/btree.js:190-201 | the accumulator gains the subtree's in-order sequence |
| Btree.BTree.Insert | Btree/btree.js:35-46 | the tree stays valid; `traverse()` becomes the sorted insertion of the key; the height grows by one exactly when the root was full; the fill is kept |
| Btree.BTree.Delete | Btree/btree.js:86-91 | the tree stays valid and gains no key; a fault is returned exactly when the node-level delete fails, and then the tree is unchanged; otherwise a key-less internal root is replaced by its only child with the height one less, and any other root is the result with the same height; an absent key changes nothing in every valid tree; from a filled tree exactly one occurrence of the key is gone |
| BtreeDelete.BorrowFromPrev | Btree/btree.js:151-159 | the parent keeps its number of keys and children |
| BtreeDelete.BorrowFromNext | Btree/btree.js:161-169 | the parent keeps its number of keys and children |
| BtreeDelete.Merge | Btree/btree.js:171-181 | the parent loses exactly one key and one child |
| BtreeDelete.BorrowPrevShape | Btree/btree.js:151-159 | borrowing from the left sibling keeps every leaf at the same depth |
| BtreeDelete.BorrowNextShape | Btree/btree.js:161-169 | borrowing from the right sibling keeps every leaf at the same depth |
| BtreeDelete.MergeShape | Btree/btree.js:171-181 | merging keeps every leaf at the same depth |
| BtreeDelete.BorrowPrevInorder | Btree/btree.js:151-159 | borrowing from the left sibling keeps the in-order sequence, and the child keeps all its keys |
| BtreeDelete.BorrowNextInorder | Btree/btree.js:161-169 | borrowing from the right sibling keeps the in-order sequence, and the child keeps all its keys |
| BtreeDelete.MergeInorder | Btree/btree.js:171-181 | merging keeps the in-order sequence; the merged child is the left child, the separator and the right child |
| BtreeDelete.BorrowPrevBounded | Btree/btree.js:151-159 | borrowing into a child with room keeps the `2t - 1` key bound |
| BtreeDelete.BorrowNextBounded | Btree/btree.js:161-169 | borrowing into a child with room keeps the `2t - 1` key bound |
| BtreeDelete.MergeBounded | Btree/btree.js:171-181 | merging children whose keys fit keeps the `2t - 1` key bound |
| BtreeDelete.Fill | Btree/btree.js:136-149 | a finished refill keeps the shape and loses at most one child |
| BtreeDelete.FillKeeps | Btree/btree.js:136-149 | a finished refill keeps the in-order sequence and the key bound |
| BtreeDelete.FillRoute | Btree/btree.js:124-149 | in a filled node with a key, the refill finishes and the child `_deleteFromSubtree` goes on to exists, holds at least `t` keys and is filled below |
| BtreeDelete.Refill | Btree/btree.js:125-128 | a finished refill keeps the shape and loses at most one child |
| BtreeDelete.LeafRemove | Btree/btree.js:100-101 | removing key `i` from a leaf removes one occurrence, adds nothing, and keeps the keys sorted |
| BtreeDelete.LeafAbsent | Btree/btree.js:99-107 | when the scan does not stop on the key, a sorted leaf lacks it |
| BtreeDelete.PredecessorSome | Btree/btree.js:116-122 | in a filled subtree with a key the rightmost leaf has a last key |
| BtreeDelete.DeleteKeeps | Btree/btree.js:93-108 | a finished delete leaves a sorted, well-formed, bounded tree of the same height that holds nothing new |
| BtreeDelete.InternalKeeps | Btree/btree.js:110-114 | a finished predecessor replacement leaves a sorted, well-formed tree that holds nothing new |
| BtreeDelete.SubtreeKeeps | Btree/btree.js:124-134 | a finished refill and descent leaves a sorted, well-formed tree that holds nothing new |
| BtreeDelete.DeleteExact | Btree/btree.js:93-108 | in an occupied tree with `t >= 2` the delete finishes and removes exactly one occurrence of the key, or nothing when it is absent |
| BtreeDelete.InternalExact | Btree/btree.js:110-114 | in a filled node the predecessor replacement finishes and removes exactly key `i` |
| BtreeDelete.PredecessorExact | Btree/btree.js:110-122 | replacing key `i` by the last in-order key of its left subtree and deleting that key there removes exactly key `i` |
| BtreeDelete.SubtreeExact | Btree/btree.js:124-134 | in an occupied node that lacks the key, refill and descent finish and remove exactly the key from the subtree |
| BtreeDelete.Predecessor | Btree/btree.js:116-122 | `_getPredecessor`: follows the last child down to a leaf and gives its last key, or nothing for an empty leaf (properties in `PredecessorSome` and `PredecessorExact`) |
| BtreeDelete.Delete | Btree/btree.js:93-108 | `_delete`: removes the key from a leaf that holds it, replaces it by its predecessor in an internal node that holds it, and otherwise descends; a leaf without the key is returned unchanged (properties in `DeleteKeeps`, `DeleteExact` and `DeleteAbsent`) |
| BtreeDelete.DeleteInternal | Btree/btree.js:110-114 | `_deleteInternalNode`: key `i` becomes the predecessor, which is then deleted from child `i` with no refill; an empty rightmost leaf is the `UndefinedKey` fault (properties in `InternalKeeps` and `InternalExact`) |
| BtreeDelete.Target | Btree/btree.js:128-132 | the child the descent goes on to: `i`, unless that child is gone or still holds fewer than `t` keys after the refill, and then `i - 1` |
| BtreeDelete.DeleteFromSubtree | Btree/btree.js:124-134 | `_deleteFromSubtree`: refills child `i` when it holds fewer than `t` keys, then deletes from the `Target` child; a target of `-1` is the `UndefinedChild` fault (properties in `SubtreeKeeps`, `SubtreeExact` and `SubtreeAbsent`) |
| BtreeDelete.DeleteAbsent | Btree/btree.js:93-108 | in every well-formed bounded tree that lacks the key, a finished delete leaves the in-order sequence unchanged, whatever the fill |
| BtreeDelete.SubtreeAbsent | Btree/btree.js:124-134 | in a node that lacks the key, a finished refill and descent leave the in-order sequence unchanged |
| BtreeDelete.RefillKeeps | Btree/btree.js:125-128 | a finished refill keeps the in-order sequence, the shape and the key bound |
| BtreeDelete.DeleteLosesFill | Btree/btree.js:124-149 | a concrete `t = 2` tree: deleting 4 leaves it unoccupied, deleting 3 then succeeds, and deleting 2 then reaches `_merge(node, -1)` |

## Left out

- Real file and network I/O, JSON text, and `async`/`await`. The log is a
  sequence of lines that either parse or do not. A table file is a string.
  Every method runs to completion in sequence.
- `Lsm.WAL.Recover`: a read error other than a missing file also yields an
  empty memtable in the source. The model has no such error, because the
  file is given as a value.
- `Lsm.SSTable.FromEntries`: the `Date.now()` table id is not kept. Tables
  are ordered by their position in the list.
- `Sst.SSTable.Get` does not model the 1024-byte chunked read. It reads the
  rest of the file at once, so a record split across two chunks is read
  whole. The `if (result) break` test treats an empty value as not found
  and reads on; the model stops at the first match. A greater key only
  ends the scan of the current chunk, and the source then reads the next
  chunk. So in a file holding several batches the source can still match a
  later record, while the model stops at the first greater key.
- UTF-8 byte lengths (`Buffer.byteLength`): one character is one byte.
- `localeCompare` collation is replaced by the one lexicographic order. It
  agrees with the JavaScript string operators only for characters below
  U+10000.
- `Sst.SSTable.LoadIndex`: a read error other than a missing file throws
  in the source. The model takes the failure as the parameter `readError`
  and reports it as `false`, leaving the state unchanged.
- The B-tree works on node values, not on arrays changed in place, so
  aliasing between nodes is not modelled.
- `Btree.BTree.Delete`: when the source throws part-way (`UndefinedChild`),
  it may have already changed some nodes. The model returns the fault and
  keeps the tree as it was. On the `UndefinedKey` path the source does not
  throw: it writes `undefined` into the tree and finishes, so the tree is
  corrupted without an error. The model reports that path as a fault and
  keeps the old tree. For example, with `t = 2`, insert 1, 2, 3 and 4,
  delete 2, then delete 1. The source's `traverse` then gives
  `[undefined, 3, 4]`, while the model reports `UndefinedKey` and keeps
  `[1, 3, 4]`.
- `Btree.BTree.constructor` requires `t >= 2`. With `t = 1` the source's
  root split and merge misbehave, and no tree of minimum degree 1 is a
  B-tree.
- `BtreeDelete.DeleteExact` holds only for an occupied tree: every node
  below the root holds at least `t - 1` keys. The minimum-occupancy bound
  is not kept by `delete`, because `_deleteInternalNode` descends without a
  refill. `BtreeDelete.DeleteLosesFill` shows a tree where a later delete
  of a present key then fails.
- `visualize`, the example drivers and `main` of every file (console
  output), and the MongoDB demo (a network client over a library that is
  not part of this model).

## Findings

| source | as written | input that shows it | evidently intended | confidence | as-written member | corrected member |
|---|---|---|---|---|---|---|
| SSTable/sst.js:16,26,29 | `write` starts `offset` at 0 in every call, so the offsets it indexes count from the start of the batch, not of the file | a file already holding ten records, then a second `write` of one pair: that pair is indexed at offset 0, which is the first record of the file | offsets counted from the end of the file before the append, so that `get` starts its scan at the indexed record | not executed | Sst.WriteIndexDrift | Sst.SSTable.WriteAtEnd |
