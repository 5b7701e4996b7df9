# Tablet data-block encoder

This project models the data-block encoder of an embedded LSM key-value store: the `BlockWriter` of `go/datastore/block_writer.go`. A tablet is an immutable sorted run on disk, split into data blocks. The block writer builds one block:

- every appended key/value pair becomes an entry: the length of the prefix the key shares with the previous key, then the rest of the key and the value;
- every `KeyRestartInterval`-th entry is a restart point, which stores the whole key and whose byte offset is recorded;
- `Finish` appends each restart offset and then the number of restarts, each as a big-endian uint32.

Files:

- `wire.dfy` (module `Wire`): bytes, Go's `uint32(...)` conversion (`U32`), the big-endian word `binary.Write` produces (`BE32`) and its inverse, and `Codec`, which stands for the entry encoders `writeUint` and `writeKv`. Their bodies are not part of this model.
- `block_layout.dfy` (module `BlockLayout`): the layout of a block as pure functions of the sequence of appended pairs. `Entries` is the prefix compression, `EntryData` the entry bytes, `Restarts` the restart offsets, `Trailer` the trailer, and `Block` the finished block. It also holds `Decompress`, the reader's inverse of the prefix compression, and the lemmas about the layout.
- `block_writer.dfy` (module `Datastore`): `CommonPrefix`, a method with the source's counting loop and early exit, and the class `BlockWriter` with the source's fields (`buf`, `count`, `restarts`, `firstKey`, `prevKey`). Each method states its new state in terms of the old one. The ghost field `appended` records the pairs appended since construction or the last `Reset`. The predicate `Building()` says that every field is what the layout prescribes for `appended`. `WriteOneEntry` and `FixtureBlock` replay the Java port's unit test.

Modelling decisions:

- `writeUint`/`writeKv` are a `Codec` value of two total functions. The one assumption about them is that `writeUint` writes at least one byte. This is why `encUint` returns `NonEmptyBytes`, and it is what makes restart offsets strictly increasing and makes "the buffer is empty" mean "nothing has been appended". The Java test shows two encodings: 0 is the byte `0`, and the pair "foo" -> "bar" is `0xA3` "foo" `0xA3` "bar". `MatchesFixture` states exactly these two samples and does not generalise them to other strings.
- The `uint32` casts at go/datastore/block_writer.go:54, :66 and :74 are written out as `U32` (the low 32 bits). `Append` therefore needs no precondition on the buffer length. Its promise that the writer stays in the `Building()` state holds when the buffer was shorter than 2^32 bytes before the call. For longer buffers the stored offset is truncated, as in Go.
- `KeyRestartInterval > 0` is required (`Configured()`), because `Append` takes a remainder by it.
- The Go `nil` slices of a new or reset writer are the empty sequence.
- `Finish` writes the trailer into `buf`, as the source does, and leaves the other fields alone. Afterwards `buf` no longer matches `Building()`. An `Append` after `Finish` without a `Reset` is still modelled byte for byte, but no layout claim is made for it.

## Model

| member | source | states |
|---|---|---|
| `Datastore.CommonPrefix` | go/datastore/block_writer.go:23-40 | the count is at most the length of each input; the first `count` bytes agree; if `count` is below both lengths, the bytes at `count` differ; the count equals `CommonPrefixLen` |
| `BlockLayout.CommonPrefixLen` | go/datastore/block_writer.go:24-40 | the longest common prefix length: bounded by both lengths, prefixes equal, the next bytes differ; for equal inputs it is the whole length |
| `BlockLayout.CommonPrefixLenUnique` | go/datastore/block_writer.go:24-40 | any length with the three properties above is the common prefix length, so the characterisation is exact |
| `BlockLayout.MakeEntry` | go/datastore/block_writer.go:52-60 | the entry's shared length fits both the key and the previous key; a restart entry has shared length 0 and stores the whole key; the value is kept |
| `BlockLayout.MakeEntryRebuildsKey` | go/datastore/block_writer.go:56-60 | the previous key's first `shared` bytes followed by the stored suffix `key[shared:]` are the key, so each key is recoverable from its predecessor |
| `BlockLayout.DecompressEntries` | go/datastore/block_writer.go:56-61 | rebuilding every key from its predecessor and the stored suffix gives back all appended pairs, keys and values, in order |
| `BlockLayout.EntryBytes` | go/datastore/block_writer.go:59-60 | the bytes of one entry, `writeUint(shared)` followed by `writeKv(suffix, value)`, are never empty |
| `BlockLayout.Entries` | go/datastore/block_writer.go:52-60 | the entries Append writes, one per appended pair in order, each made against the key of the pair before it; its partner is `DecompressEntries` |
| `BlockLayout.Decompress` | go/datastore/block_writer.go:56-60 | the reader's side, which has no Go counterpart in this file: it inverts lines 56-60 by rebuilding each key from its predecessor's first `shared` bytes and the suffix; a successful decode gives one pair per entry |
| `BlockLayout.Serialize` | go/datastore/block_writer.go:59-60 | the entries' bytes one after another, at least one byte per entry |
| `BlockLayout.EntryData` | go/datastore/block_writer.go:42-63 | the buffer after the appends: at least one byte per appended pair, so it is non-empty once a pair has been appended |
| `BlockLayout.Restarts` | go/datastore/block_writer.go:53-54 | the `restarts` slice: at most one restart per pair; `RestartCount`, `RestartOffsetAt` and `RestartsIncreasing` pin it down |
| `BlockLayout.RestartWords` | go/datastore/block_writer.go:70-72 | the words the Finish loop writes: four bytes per restart |
| `BlockLayout.Trailer` | go/datastore/block_writer.go:70-74 | the restart words then the count word: four bytes per restart plus four |
| `BlockLayout.Block` | go/datastore/block_writer.go:69-77 | the block Finish returns is the entry section, four bytes per restart, and four bytes of restart count, the expression `Size()` casts at :66 |
| `BlockLayout.RestartEntryHoldsFullKey` | go/datastore/block_writer.go:52-57 | an entry whose index is a multiple of the restart interval has shared length 0 and stores the whole key |
| `BlockLayout.RestartsBelowEnd` | go/datastore/block_writer.go:53-54 | every restart offset is smaller than the length of the entry bytes |
| `BlockLayout.RestartsIncreasing` | go/datastore/block_writer.go:53-54 | restart offsets strictly increase, and a non-empty block has a first restart at offset 0 |
| `BlockLayout.RestartCount` | go/datastore/block_writer.go:52-54 | a block of n pairs has ceil(n / KeyRestartInterval) restarts |
| `BlockLayout.RestartOffsetAt` | go/datastore/block_writer.go:52-60 | restart j is recorded at the start of the entry for pair j * KeyRestartInterval, i.e. at the length of the entry bytes of the pairs before it |
| `BlockLayout.OneRestart` | java/src/test/java/com/thefactory/datastore/BlockWriterTest.java:27-28 | a block with one pair has exactly one restart, at offset 0 |
| `BlockLayout.AppendKeepsDescribes` | go/datastore/block_writer.go:42-63 | if the writer's fields describe the pairs appended so far, then after one append (entry bytes added at the end, restart recorded at the old buffer length when the counter is a multiple of the interval, first key taken only from an empty buffer, counter plus one, previous key replaced) they describe those pairs plus the new one |
| `BlockLayout.EntryDataSnoc` | go/datastore/block_writer.go:59-60 | appending one pair adds exactly its entry bytes, made against the previous last key, after the old entry section |
| `BlockLayout.RestartsSnoc` | go/datastore/block_writer.go:53-54 | appending one pair adds a restart, at the old length of the entry section, exactly when its index is a multiple of the interval |
| `BlockLayout.TrailerWordAt` | go/datastore/block_writer.go:69-72 | trailer word j decodes, big-endian, to restart offset j cast to uint32 |
| `BlockLayout.TrailerCount` | go/datastore/block_writer.go:74 | the last trailer word decodes to the restart count cast to uint32 |
| `Wire.U32` | go/datastore/block_writer.go:54 | the uint32 cast is the identity below 2^32, never grows the value, and differs from it by a multiple of 2^32 |
| `Wire.BE32` | go/datastore/block_writer.go:71 | four bytes which, read big-endian, give the word back |
| `Wire.BE32OfFromBE32` | go/datastore/block_writer.go:71 | every four bytes are the big-endian encoding of the word they spell, so encoding and decoding are inverse both ways |
| `Datastore.BlockWriter.constructor` | go/datastore/block_writer.go:17-21 | a new writer has an empty buffer, count 0, no restarts, no first or previous key, and is building an empty block |
| `Datastore.BlockWriter.Append` | go/datastore/block_writer.go:42-63 | first key set to the key only when the buffer was empty; a restart at the old buffer length (cast to uint32) exactly when count % KeyRestartInterval == 0; the buffer grows by writeUint(shared) and writeKv(key[shared:], value), where shared is 0 at a restart and the common prefix with the previous key otherwise; previous key replaced; count plus one; a building writer stays building while the buffer fits uint32 |
| `Datastore.BlockWriter.Size` | go/datastore/block_writer.go:65-67 | for a building writer, the size is the length, cast to uint32, of the block Finish will produce |
| `Datastore.BlockWriter.Finish` | go/datastore/block_writer.go:69-77 | the buffer becomes the old buffer, then each restart as a big-endian uint32, then the restart count; it returns the first key and that buffer; the length (cast) equals Size() before the call; for a building writer the result is the block of the appended pairs |
| `Datastore.BlockWriter.Reset` | go/datastore/block_writer.go:79-85 | empty buffer, count 0, no restarts, no first or previous key: the same state as a new writer |
| `Datastore.ResetActsAsNew` | go/datastore/block_writer.go:79-85 | after Reset, a writer in any state gives the same first key and the same finished block for its next pair as a new writer with the same codec and interval |
| `Datastore.FixtureEntryData` | java/src/test/java/com/thefactory/datastore/BlockWriterTest.java:24-25 | under the two encodings the test fixes, the entry bytes for "foo" -> "bar" are 0, 0xA3 "foo", 0xA3 "bar" |
| `Datastore.OneRestartTrailer` | java/src/test/java/com/thefactory/datastore/BlockWriterTest.java:27-29 | the trailer of one restart at offset 0 is 0,0,0,0 then 0,0,0,1 |
| `Datastore.FixtureBlock` | java/src/test/java/com/thefactory/datastore/BlockWriterTest.java:16-30 | the finished block for "foo" -> "bar" with restart interval 10 is exactly the test's 17 bytes |
| `Datastore.WriteOneEntry` | java/src/test/java/com/thefactory/datastore/BlockWriterTest.java:16-30 | a new writer with interval 10, one Append of "foo" -> "bar", and Finish return first key "foo" and exactly the test's 17 bytes |

## Left out

- The byte formats of `writeUint` and `writeKv`: their source is not part of this model. They are abstract apart from the two encodings the Java test fixes and the assumption that `writeUint` writes at least one byte. For the same reason the keys are shown to be recoverable at the level of entries (`DecompressEntries`) and not by parsing bytes.
- The `2*BlockSize` capacity of the initial buffer (go/datastore/block_writer.go:18-19): it only pre-allocates memory and changes nothing observable.
- Aliasing: `prevKey = key` keeps the caller's slice, and `Finish` returns the writer's own buffer. Keys, values and buffers are immutable sequences here, so a caller changing them afterwards is not modelled.
- `KeyRestartInterval == 0`: Go's `NewBlockWriter` accepts it, and the first `Append` then panics with an integer divide by zero at go/datastore/block_writer.go:53. The constructor here requires a positive interval, so the panic is not modelled.
- The `*TabletOptions` pointer: only `KeyRestartInterval` is used, and it is a constant field of the writer. A change to the options while a block is being built is not modelled.
- Wrap-around of the `uint` count (go/datastore/block_writer.go:11, :62): Go's `uint` is 32 or 64 bits depending on the platform, and a wrap needs 2^32 or 2^64 appends, more entries than an addressable buffer can hold on that platform. `count` is a `nat` here.
- The rest of the storage engine (tablet writer and reader, memtable, merge iterator, write-ahead log, database, file system, Snappy compression): no implementation of these is part of this model.
