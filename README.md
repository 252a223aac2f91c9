# kvstore in Dafny

A model of the core of a small Go key-value store, with proofs about it.

The store keeps recent writes in an in-memory binary search tree (the
memtable). Every change is first appended to a write-ahead log (WAL). A
`WATERMARK` marker in the log separates entries already flushed from those
still to replay. A flush writes the memtable to a sorted-string table
(SSTable) file made of a header, one length-prefixed record per pair in
ascending key order, and a trailing checksum. The directory of SSTables is
counted and loaded at start-up. Two older back ends are modelled as well:

- a block file store, whose file is a row of 100-byte `key=value#000…` blocks;
- an in-memory map store, with the command parser of its REPL.

Modules, one per source file (plus shared pieces):

| module | file | models | style |
|---|---|---|---|
| `Wrappers` | wrappers.dfy | `Option`, `Result`, `Outcome` (error or success) | datatypes |
| `Codec` | codec.dfy | encodingDecoding.go (and its copy in wal.go) | functions and lemmas |
| `ByteOrder` | byte_order.dfy | `bytes.Compare`, the order of the tree | predicate and lemmas |
| `Files` | files.dfy | reads and writes at an offset of an `*os.File` | functions on byte sequences |
| `Index` | index.dfy | binarySearchTree.go | datatype `Node` + class `Tree` |
| `TreeIterator` | tree_iterator.dfy | iterator.go | class `Iterator` with loops |
| `WriteAheadLog` | wal.dfy | wal.go | class `Wal`, methods with loops |
| `SSTable` | sstable.dfy | sstables.go | class `SStables`, loops and writes |
| `FileStore` | file_store.dfy | filedb.go | class `FileDB` over the file's bytes |
| `Legacy` | legacy.dfy | old/main1.go | class `MemDB`; `parseCmd` as a function |

Files are byte sequences. A read of `n` bytes follows `os.File.Read`:
- an empty read succeeds;
- a read at the end of the file is `io.EOF`;
- a short read returns what is there, and the rest of the fresh buffer stays zero.

A write at an offset replaces bytes and may grow the file. I/O errors other
than `io.EOF` are not modelled.

## Model

| member | source | states |
|---|---|---|
| Codec.EncodeIntValue | encodingDecoding.go:6-10 | `encodeInt` writes `x` modulo 2^32 as four big-endian bytes (the `uint32` conversion) |
| Codec.DecodeIntValue | encodingDecoding.go:12-14 | `decodeInt` reads the first four bytes as a big-endian number |
| Codec.EncodeNumValue | encodingDecoding.go:16-20 | `encodeNum` writes `v` modulo 2^16 as two big-endian bytes |
| Codec.DecodeNumValue | encodingDecoding.go:22-24 | `decodeNum` reads the first two bytes as a big-endian number |
| Codec.DecodeEncodeInt | encodingDecoding.go:6-14 | decoding undoes encoding for every value below 2^32 |
| Codec.EncodeDecodeInt | encodingDecoding.go:6-14 | every 4-byte string is the encoding of what it decodes to |
| Codec.EncodeIntWraps | encodingDecoding.go:6-10 | values outside the uint32 range wrap: only the low 32 bits are written and read back |
| Codec.DecodeEncodeNum | encodingDecoding.go:16-24 | decoding undoes encoding for every value below 2^16 |
| Codec.EncodeDecodeNum | encodingDecoding.go:16-24 | every 2-byte string is the encoding of what it decodes to |
| ByteOrder.LessIrreflexive | binarySearchTree.go:31-38 | no key compares below itself |
| ByteOrder.LessAsymmetric | binarySearchTree.go:31-38 | two keys never compare below each other |
| ByteOrder.LessTransitive | binarySearchTree.go:31-38 | the `bytes.Compare` order is transitive |
| ByteOrder.LessTotal | binarySearchTree.go:31-38 | two different keys are always ordered one way or the other |
| Files.ReadAt | wal.go:170-172 | a read hits EOF exactly when it asks for bytes at the end of the file; otherwise it fills the buffer and moves forward |
| Files.ReadAtContents | filedb.go:40-43 | a read returns the next `n` bytes, or the rest of the file followed by zeros when fewer remain |
| Files.WriteAt | filedb.go:123-131 | a write at an offset replaces exactly the bytes it covers, keeps all others, and zero-fills any gap past the old end |
| Files.WriteAtThen | sstables.go:249-277 | two consecutive writes from the start leave the file as one write of both pieces |
| Index.SearchSpec | binarySearchTree.go:51-66 | on an ordered tree, `Get` finds `v` exactly when a live item `(key, v)` is in the in-order sequence |
| Index.Insert | binarySearchTree.go:23-46 | the tree is non-empty afterwards, its keys gain `key`, and the search order is kept |
| Index.InsertNew | binarySearchTree.go:23-46 | a new key is inserted as a live item at its sorted place in the in-order sequence |
| Index.InsertExisting | binarySearchTree.go:23-46 | an existing key gets the new value and keeps its deletion marker; the shape of the tree is unchanged |
| Index.SearchAfterInsert | binarySearchTree.go:23-46 | after `Set`, the key finds the new value unless it had been deleted, in which case it stays deleted; every other key finds what it found before |
| Index.DeleteOutcome | binarySearchTree.go:108-142 | `Del` succeeds exactly when the key is present and live; the error is "the key is already deleted" for a dead key, otherwise "we can not delete a nil node" |
| Index.DeleteKeepsShape | binarySearchTree.go:108-142 | deletion only clears a flag: shape, keys and order are unchanged |
| Index.DeleteMarks | binarySearchTree.go:108-142 | the in-order sequence is the old one with that key's item marked dead |
| Index.SearchAfterDelete | binarySearchTree.go:108-142 | after `Del`, the key is not found and every other key finds what it found before |
| Index.OrderedAscending | binarySearchTree.go:182-200 | the in-order walk of a search tree visits keys in strictly ascending order |
| Index.Size | binarySearchTree.go:100-105 | `len` counts every node, live or deleted: the length of the in-order sequence |
| Index.MinKey | binarySearchTree.go:87-92 | the leftmost key is the first key of the in-order sequence |
| Index.MaxKey | binarySearchTree.go:74-79 | the rightmost key is the last key of the in-order sequence |
| Index.MinMaxBound | binarySearchTree.go:68-92 | on an ordered tree, the min key is below and the max key above every other key |
| Index.VisitPrefixSpec | binarySearchTree.go:182-200 | the walk offers a prefix of the items in order; each pair but the last offered was accepted; it reports true exactly when all were offered and accepted |
| Index.VisitPrefixConcat | binarySearchTree.go:182-200 | a walk over two runs continues into the second exactly when the first completes |
| Index.AscendWalk | binarySearchTree.go:182-200 | the recursive walk of `ascendInOrder` is the visit of the in-order sequence |
| Index.Tree.constructor | binarySearchTree.go:17-21 | a new tree is empty and valid |
| Index.Tree.Set | binarySearchTree.go:144-150 | `Set` keeps the tree valid; an empty tree gets a single live node; a new key is inserted in order; an existing key's value is replaced without changing the shape |
| Index.Tree.Get | binarySearchTree.go:153-158 | `Get` returns the value of the live item with that key, and nothing when there is none |
| Index.Tree.Del | binarySearchTree.go:159-176 | an empty tree is "the tree is already empty"; success exactly when the key is live; on success the item is marked dead and nothing else changes; on failure the tree is unchanged |
| Index.Tree.Len | binarySearchTree.go:94-99 | the number of nodes, deleted ones included |
| Index.Tree.Min | binarySearchTree.go:81-92 | nil exactly for an empty tree; otherwise the first key in order, below every other key |
| Index.Tree.Max | binarySearchTree.go:68-79 | nil exactly for an empty tree; otherwise the last key in order, above every other key |
| Index.Tree.Ascend | binarySearchTree.go:178-181 | the pairs offered are a prefix of the items in ascending key order, deleted ones included |
| TreeIterator.Iterator.constructor | iterator.go:12-21 | a new iterator starts at the first item in order |
| TreeIterator.Iterator.HasNext | iterator.go:24-26 | true exactly while items remain |
| TreeIterator.Iterator.Next | iterator.go:30-57 | returns the item at the current position and advances by one; at the end it fails with "cannot call next on a nil iterator" and changes nothing |
| TreeIterator.Leftmost | iterator.go:36-41 | descending left from a node reaches the first item of its subtree |
| TreeIterator.Successor | iterator.go:45-57 | climbing from a node with no right child reaches the next item in order, or the end |
| TreeIterator.IteratorAscending | iterator.go:10-21 | on an ordered tree, the items come out in strictly ascending key order |
| WriteAheadLog.Wal.constructor | wal.go:116-121 | the log holds the given file content and name |
| WriteAheadLog.Wal.WaterMark | wal.go:126-136 | appends the 9 bytes "WATERMARK" at the end of the file |
| WriteAheadLog.WatermarkFound | wal.go:211-242 | after a watermark followed by bytes containing none, that watermark is the last one found |
| WriteAheadLog.LastWatermark | wal.go:224-239 | the position of the last case-insensitive "WATERMARK" window, or -1 when there is none |
| WriteAheadLog.Wal.FindLastWatermarkPosition | wal.go:211-242 | the backward scan finds the last watermark, and leaves the file offset where its last window read ended |
| WriteAheadLog.Record | wal.go:69-113 | a log record is 12 bytes of header plus the key and the value |
| WriteAheadLog.AppendCommand | wal.go:69-113 | a nil log, nil entry, invalid command, nil key or nil value on `Set` is the matching error and leaves the file unchanged; otherwise the entry's record is appended |
| WriteAheadLog.ReadStart | wal.go:153-165 | entries start right after the last watermark, or at 0 when there is none |
| WriteAheadLog.ReadStartAsWritten | wal.go:153-165 | as written: without a watermark in a file of at least 9 bytes, reading starts at offset 9, not 0 |
| WriteAheadLog.ReadEntry | wal.go:167-174 | a read at the end of the log ends it; any failure is "EOF", and before the end it fails exactly when the key stage after the command bytes fails; otherwise the offset moves forward |
| WriteAheadLog.ReadKey | wal.go:176-188 | any failure is "EOF"; it fails exactly when the key length read starts at the end of the file, when a non-empty key read starts there, or when the value stage after the key fails; a short read is zero-padded and accepted; a result keeps the command and has a key |
| WriteAheadLog.ReadValue | wal.go:189-198 | any failure is "EOF"; it fails exactly when the value length read starts at the end of the file or a non-empty value read starts there; a short read is zero-padded and accepted; a result carries the key and command and a value of the length read |
| WriteAheadLog.ReadOne | wal.go:167-206 | the loop body reads one entry as `ReadEntry` describes |
| WriteAheadLog.SeekStart | wal.go:153-165 | the offset where `Read` starts is the corrected `ReadStart` |
| WriteAheadLog.Read | wal.go:141-210 | a nil log is "wal closed"; otherwise the entries parsed from the corrected `ReadStart` (offset 0 without a watermark; the as-written start is under Findings) to the end |
| WriteAheadLog.ReadRecord | wal.go:167-206 | a record written by `AppendCommand` reads back as its entry, with a nil value read as empty |
| WriteAheadLog.ParseSerialized | wal.go:167-206 | a run of appended records parses back to its entries, in order |
| WriteAheadLog.LogRoundTrip | wal.go:141-210 | entries appended after a watermark are exactly what `Read` returns |
| WriteAheadLog.FreshLogRoundTrip | wal.go:141-210 | entries appended to a log with no watermark are exactly what `Read` returns |
| WriteAheadLog.ReadStartAsWrittenFails | wal.go:153-165 | a one-record log with no watermark reads back with "EOF" as written, and as its record when corrected |
| WriteAheadLog.TruncatedRecordAccepted | wal.go:189-198 | a record cut short inside its value length is read with the missing bytes as zeros and returned with an empty value, not as an error |
| WriteAheadLog.Apply | wal.go:270-276 | replaying one entry keeps the tree ordered |
| WriteAheadLog.ApplyKeys | wal.go:270-276 | a `Set` entry adds its key; a `Del` entry leaves the keys as they were |
| WriteAheadLog.ReplayKeys | wal.go:270-276 | replaying a log keeps the tree ordered; its keys gain exactly the keys of the `Set` entries |
| WriteAheadLog.Replay1 | wal.go:270-276 | one entry is applied to the tree in place |
| WriteAheadLog.ReplayAll | wal.go:269-277 | the entries are applied in order |
| WriteAheadLog.Recover | wal.go:264-278 | a nil log or a read error returns that error and leaves the tree unchanged; otherwise every entry read from the corrected `ReadStart` is replayed |
| WriteAheadLog.RecoveryExampleLog | wal.go:141-210 | with entries on both sides of a watermark, only the entry after it is read |
| WriteAheadLog.RecoveryExampleTree | wal.go:264-278 | replaying that entry into an empty tree finds it and nothing else |
| SSTable.OpenSSTable | sstables.go:138-229 | an empty file is "EOF"; a table opens only with the zero magic number and a passing checksum stage |
| SSTable.ReadCount | sstables.go:169-173 | a missing entry count is "EOF" |
| SSTable.ReadBounds | sstables.go:174-183 | missing smallest or largest key is "EOF"; otherwise the count read is kept |
| SSTable.ReadVersion | sstables.go:184-188 | the version read fails with "EOF" exactly at the end of the file; otherwise every header field read is kept |
| SSTable.OpenChecksMagic | sstables.go:161-168 | a file whose first four bytes are not zero is "corrupt sstable" |
| SSTable.OpenNeedsHeader | sstables.go:161-188 | an opened table has the magic number and more than 16 bytes, since the version read starts at offset 16 |
| SSTable.ChecksumAsWrittenFails | sstables.go:190-216 | as written, the checksum stage reads at the end of the file, so every open fails |
| SSTable.FileCountBounds | sstables.go:89-95 | at most one table per entry; none exactly when every entry is a directory |
| SSTable.CountFiles | sstables.go:89-95 | the counting loop counts the entries that are not directories |
| SSTable.LoadAllOrNothing | sstables.go:113-137 | loading succeeds exactly when every regular file opens, and then yields one header per file |
| SSTable.LoadSSTables | sstables.go:113-137 | the loading loop skips directories and stops at the first open that fails |
| SSTable.LoadKeepsError | sstables.go:124-134 | once an open has failed, later entries change nothing |
| SSTable.NewSST | sstables.go:75-112 | a listing error is returned; no regular files give an empty manager with count 0; otherwise the count of files and the loaded tables, or the load error |
| SSTable.ParseDecimalOf | sstables.go:314-316 | the decimal digits of `%d` read back as the number |
| SSTable.FileName | sstables.go:314-316 | the name is "file", the decimal count, ".sst" |
| SSTable.FileNameInjective | sstables.go:314-316 | different counts give different file names |
| SSTable.SStables.Name | sstables.go:314-316 | the name of the current count |
| SSTable.SStables.constructor | sstables.go:96-111 | a manager holds its path, count and tables |
| SSTable.HeaderBytes | sstables.go:248-277 | the header is 18 bytes long (its fields are read back by `HeaderLayout`) |
| SSTable.HeaderLayout | sstables.go:248-277 | header fields: zero magic, count mod 2^32, first four bytes of the min and max keys, version 1 |
| SSTable.KeyPrefix | sstables.go:259-271 | reading a key with `Uint32` and writing it back with `PutUint32` keeps its first four bytes |
| SSTable.RecordBytes | sstables.go:279-301 | a record is the key length and the value length modulo 256, one byte each, then the key and the value |
| SSTable.RecordsSnoc | sstables.go:279-301 | the records of a list end with the record of its last pair |
| SSTable.RecordsRoundTrip | sstables.go:279-301 | records of pairs shorter than 256 bytes parse back to the pairs |
| SSTable.RecordLengthWraps | sstables.go:281-283 | a 256-byte key is recorded with length byte 0 |
| SSTable.AscendAll | sstables.go:279-301 | `Flush`'s visitor is offered every item of the tree, in order |
| SSTable.FlushImageOpens | sstables.go:248-277 | the header `Flush` writes opens with the count, min and max prefixes and version it wrote, when the checksum stage passes |
| SSTable.FlushImageTrailer | sstables.go:303-308 | the table ends with the checksum modulo 2^32 |
| SSTable.FlushImageBody | sstables.go:279-301 | after the header, the records parse back to the tree's pairs |
| SSTable.WriteHeader | sstables.go:248-277 | the five header writes leave the 18 header bytes at the start of the file |
| SSTable.WriteRecord | sstables.go:281-299 | the four writes of a pair leave its record after what was written |
| SSTable.WriteBody | sstables.go:279-301 | one record per pair, in order, after the header |
| SSTable.WriteTable | sstables.go:248-308 | header, records and checksum, written from the start of the file |
| SSTable.SStables.Flush | sstables.go:237-311 | the count goes up by two; the file named after the first bump holds the table image over its old content; the tables list is unchanged |
| FileStore.IndexOf | filedb.go:21-28 | the index of the first terminator, or -1 exactly when there is none |
| FileStore.FindFirst | filedb.go:21-28 | the scanning loop returns the first terminator's index |
| FileStore.SplitPair | filedb.go:58-62 | a line splits into key and value exactly when it has one `=` |
| FileStore.SplitJoin | filedb.go:58-62 | a key and value without `=` split back from `key=value` |
| FileStore.SlotOf | filedb.go:45-66 | a pair read from a block holds no `=` and no terminator |
| FileStore.EntryBytes | filedb.go:94-105 | an entry fills exactly one block |
| FileStore.EntryReadsBack | filedb.go:94-105 | a block written for a clean key and value reads back as that pair |
| FileStore.EntryWithSepPanics | filedb.go:58-62 | a key containing `=` makes its block read back as a malformed pair |
| FileStore.TombstoneIsFree | filedb.go:149-153 | a deleted block reads back as free |
| FileStore.MakeEntry | filedb.go:94-105 | the entry-building code yields `key=value#` padded with '0' |
| FileStore.MakeTombstone | filedb.go:149-153 | the tombstone is '#' followed by '0' |
| FileStore.Fill | filedb.go:40 | a block read into the reused buffer fills it to the block size |
| FileStore.Scan | filedb.go:30-75 | the block search either panics or returns a write block and a key block of -1 or more |
| FileStore.ScanSlots | filedb.go:30-75 | on a file of whole blocks, the search is the search over its blocks' contents |
| FileStore.FindSpec | filedb.go:30-75 | the first block with the key is both the key block and the write block; otherwise the write block is free and no free block follows it (the last free block), or it is the block past the end when there is no free block |
| FileStore.SetReusesFree | filedb.go:50-55 | a key that is not stored is written into the last free block when one exists, and the file does not grow |
| FileStore.WriteBlockSlots | filedb.go:123-131 | writing a block replaces that block's content, or adds one at the end |
| FileStore.WriteBlockFrame | filedb.go:123-131 | a block write leaves every byte outside the block alone |
| FileStore.FileDB.constructor | filedb.go:161-167 | a store over the given file |
| FileStore.FileDB.FindBlock | filedb.go:30-75 | the search loop with its reused buffer returns what `Scan` describes |
| FileStore.FileDB.Writetoblock | filedb.go:123-131 | the entry is written at block `bl` |
| FileStore.FileDB.Set | filedb.go:77-107 | too long is the size error; a panic leaves the file; otherwise the entry is written at the block found; on a well-formed store the key then holds the value and every other key keeps its value |
| FileStore.FileDB.Get | filedb.go:109-121 | the value of the first block with the key, or "key not found"; on a well-formed store, the stored value |
| FileStore.FileDB.Del | filedb.go:132-159 | "key not found" without a block; otherwise a tombstone and the key returned; on a well-formed store, success exactly when the key was stored, and afterwards it is gone and every other key keeps its value |
| FileStore.GetStored | filedb.go:109-121 | on a well-formed store, the search returns the key's stored value |
| FileStore.SetStores | filedb.go:77-107 | on a well-formed store, `Set` keeps the store well formed, stores the value and keeps every other key |
| FileStore.SetStoresAll | filedb.go:77-107 | the same, for all other keys at once |
| FileStore.SetSlots | filedb.go:77-107 | at block level: the written block holds the pair; no other key changes |
| FileStore.DelRemoves | filedb.go:132-159 | on a well-formed store, a key block exists exactly when the key is stored; the tombstone removes the key and keeps every other key |
| FileStore.DelRemovesAll | filedb.go:132-159 | the same, for all other keys at once |
| FileStore.DelSlots | filedb.go:132-159 | at block level: freeing the key's block removes it and keeps every other key |
| Legacy.MemDB.constructor | old/main1.go:65-70 | a new store is empty |
| Legacy.MemDB.Set | old/main1.go:44-47 | always succeeds; the key holds the value; other keys are untouched |
| Legacy.MemDB.Get | old/main1.go:49-55 | the stored value exactly when the key is present, otherwise "key not found" |
| Legacy.MemDB.Del | old/main1.go:57-63 | succeeds exactly when the key was present, returning its value and removing it; otherwise "key doesn't exist" with the map unchanged |
| Legacy.Word | old/main1.go:80 | the run of non-space runes at the start of the line |
| Legacy.Fields | old/main1.go:80 | every word is non-empty and free of white space |
| Legacy.FieldsBlank | old/main1.go:80-83 | a line has no words exactly when it is all white space |
| Legacy.FieldsJoin | old/main1.go:80 | words joined by spaces split back into the same words |
| Legacy.FieldsLeadingSpace | old/main1.go:80 | leading white space does not change the words |
| Legacy.ParseCmd | old/main1.go:78-97 | a blank line is the "Empty command" error with `Unk`; a known first word selects its command, others are `Unk` without error; `get`/`set`/`del` take the other words as arguments; `exit` and `Unk` take none |
| Legacy.ParseBlank | old/main1.go:79-83 | the empty-command error comes exactly from blank lines |
| Legacy.ParseWords | old/main1.go:85-93 | a line whose first word names a command parses as that command with the rest as arguments |
| Legacy.ParseJoin | old/main1.go:85-93 | a command word followed by argument words parses back to that command and those arguments |
| Legacy.ParseLeadingSpace | old/main1.go:80 | leading white space does not change how a line parses |

## Left out

- Mutexes (`sync.Mutex` in `Wal` and `SStables`) and concurrency: every operation runs alone.
- I/O errors other than end of file. `Seek`, `Stat`, `Open`, `Readdir` and `Write` always succeed; a directory listing is an input that may be an error.
- `os.Stat` of the WAL's name: the file size is the length of the log's content.
- CRC-32 (`crc32.ChecksumIEEE`): `Flush` takes it as a function `crc` of the file name.
- SSTable.OpenSSTable: the checksum stage is a parameter `verify` of the file's content. Any choice verifies, and the modelled behaviour as written is `ChecksumAsWritten`. As written, that stage reads past the end of the file, so no table opens (`ChecksumAsWrittenFails`). What a corrected stage should compare is not evident: `Flush` writes the CRC of the file name, while the open computes the CRC of the whole content, trailer included. So no corrected stage is given.
- SSTable.SStables.Flush requires a non-empty tree whose min and max keys have at least 4 bytes. Otherwise `binary.BigEndian.Uint32` panics in the source.
- SSTable.SStables.Flush: the `wal` parameter is unused, so it is dropped. The file is created in the working directory, which is modelled by `WorkDir`, not under `path`, as in the source. A write error inside the visitor, which would stop the walk, cannot happen here.
- SSTable.RecordBytes: lengths are written as one byte (`byte(len(key))`), so a length of 256 or more is kept modulo 256 (`RecordLengthWraps`). The round trip is proved for lengths below 256.
- `SStables.Get` (sstables.go:232-234) is a stub returning nothing; it is not modelled.
- `Print`/`printTree`, `CalculateCheckSum` (unused), the HTTP handlers, `NewDB`, `main` and `Repl.Start` (old/main1.go:99-159): printing, network and process plumbing.
- WriteAheadLog: lengths and command codes of 2^32 or more are not loggable. `Loggable` excludes them, because the record format cannot hold them.
- FileStore: the block size and terminator are fixed at `NewFileDB`'s 100 and '#'. The store-level properties (`Good`, `Stored`) are stated for files made of whole blocks, which is what the store itself writes.
- FileStore.FileDB.Set: a key or value containing '=' or '#' is accepted by the source and corrupts its block; the storing property is stated for clean keys and values, and `EntryWithSepPanics` shows the corruption.
- TreeIterator.Iterator: the iterator holds a value copy of the tree taken when it is made, so a later `Set` or `Del` on the tree is not seen by it, and `Next` returns a copy of the item, so a caller cannot change the tree through the returned node.
- Panics of the source are modelled as a `Panicked` reply, not as ending the program.
- Legacy: a line is the sequence of runes Go decodes from its bytes; invalid UTF-8 decoding is not modelled. Values are copied rather than aliased with the caller's slice.
- Legacy.ParseCmd: `nil` and empty argument slices are told apart with `Option` (`None` is `nil`).

## Findings

| source | as written | input that shows it | evidently intended | confidence | as-written member | corrected member |
|---|---|---|---|---|---|---|
| wal.go:153-165 | when the log has no watermark, `Read` does not seek back to 0 and starts reading where the watermark scan's last window read ended (offset 9) | a log holding one `Set` record of key "a" and value "b" (14 bytes, no watermark): reading from 9 hits a truncated record and returns EOF | with no watermark, read every entry from offset 0 | not executed | WriteAheadLog.ReadStartAsWrittenFails | WriteAheadLog.FreshLogRoundTrip |
