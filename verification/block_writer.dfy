/** The tablet data-block encoder of go/datastore/block_writer.go: a writer
    that appends prefix-compressed key/value entries to a growing buffer,
    records a restart offset every `keyRestartInterval` entries, and on
    Finish appends the restart trailer. */
module Datastore {
  import opened Wire
  import opened BlockLayout

  /** Number of leading bytes two byte strings have in common: counts equal
      bytes up to the shorter length and stops at the first difference. */
  method CommonPrefix(bin1: Bytes, bin2: Bytes) returns (count: nat)
    ensures count <= |bin1| && count <= |bin2|
    ensures bin1[..count] == bin2[..count]
    ensures count < |bin1| && count < |bin2| ==> bin1[count] != bin2[count]
    ensures count == CommonPrefixLen(bin1, bin2)
  {
    var length := |bin1|;
    if |bin2| < length {
      length := |bin2|;
    }
    count := 0;
    var i := 0;
    while i < length
      invariant count == i <= length
      invariant length == |bin1| || length == |bin2|
      invariant length <= |bin1| && length <= |bin2|
      invariant bin1[..i] == bin2[..i]
    {
      if bin1[i] == bin2[i] {
        assert bin1[..i + 1] == bin1[..i] + [bin1[i]];
        assert bin2[..i + 1] == bin2[..i] + [bin2[i]];
        count := count + 1;
      } else {
        break;
      }
      i := i + 1;
    }
    CommonPrefixLenUnique(bin1, bin2, count);
  }

  /** Builds one block of a tablet. `codec` stands for the writeUint and
      writeKv encoders, `keyRestartInterval` for the tablet options'
      KeyRestartInterval. The ghost field `appended` is the sequence of pairs
      appended since construction or the last Reset. */
  class BlockWriter {
    const codec: Codec
    const keyRestartInterval: nat
    var buf: Bytes
    var count: nat
    var restarts: seq<u32>
    var firstKey: Bytes
    var prevKey: Bytes
    ghost var appended: seq<KeyValue>

    /** The options give a positive KeyRestartInterval, by which Append takes a remainder. */
    ghost predicate Configured()
      reads this
    {
      keyRestartInterval > 0
    }

    /** The writer is building a block: every field is the one the layout
        prescribes for the pairs appended so far. */
    ghost predicate Building()
      reads this
    {
      Describes(codec, keyRestartInterval, appended, buf, count, restarts, firstKey, prevKey)
    }

    /** NewBlockWriter: an empty writer. */
    constructor (codec: Codec, keyRestartInterval: nat)
      requires keyRestartInterval > 0
      ensures this.codec == codec && this.keyRestartInterval == keyRestartInterval
      ensures buf == [] && count == 0 && restarts == [] && firstKey == [] && prevKey == []
      ensures appended == [] && Building()
    {
      this.codec := codec;
      this.keyRestartInterval := keyRestartInterval;
      buf, count, restarts, firstKey, prevKey := [], 0, [], [], [];
      appended := [];
    }

    /** Appends one entry. A restart entry (every keyRestartInterval-th)
        records the buffer length as its offset and stores the whole key;
        any other entry stores only the key bytes after the prefix shared
        with the previous key. */
    method Append(key: Bytes, value: Bytes)
      requires Configured()
      modifies this
      ensures Configured()
      ensures firstKey == if |old(buf)| == 0 then key else old(firstKey)
      ensures restarts == if old(count) % keyRestartInterval == 0
                          then old(restarts) + [U32(|old(buf)|)] else old(restarts)
      ensures buf == old(buf) + EntryBytes(codec, MakeEntry(keyRestartInterval, old(count), old(prevKey), KeyValue(key, value)))
      ensures prevKey == key && count == old(count) + 1
      ensures appended == old(appended) + [KeyValue(key, value)]
      ensures old(Building()) && |old(buf)| < 0x1_0000_0000 ==> Building()
    {
      ghost var kv := KeyValue(key, value);
      ghost var e := MakeEntry(keyRestartInterval, count, prevKey, kv);
      ghost var wasBuilding := Building();
      ghost var kvs0, buf0, count0, restarts0, firstKey0, prevKey0 :=
        appended, buf, count, restarts, firstKey, prevKey;
      if |buf| == 0 {
        firstKey := key;
      }
      var shared := 0;
      if count % keyRestartInterval == 0 {
        restarts := restarts + [U32(|buf|)];
      } else {
        shared := CommonPrefix(prevKey, key);
      }
      var entry := Entry(shared, key[shared..], value);
      assert entry == e;
      buf := buf + EntryBytes(codec, entry);
      prevKey := key;
      count := count + 1;
      appended := appended + [kv];
      if wasBuilding && |buf0| < 0x1_0000_0000 {
        AppendKeepsDescribes(codec, keyRestartInterval, kvs0, kv, buf0, count0, restarts0, firstKey0, prevKey0,
                             buf, count, restarts, firstKey, prevKey);
      }
    }

    /** The size Finish will produce, cast to uint32 as the source does. */
    function Size(): (n: u32)
      reads this
      ensures Building() ==> n == U32(|Block(codec, keyRestartInterval, appended)|)
    {
      U32(|buf| + 4 * |restarts| + 4)
    }

    /** Appends the restart trailer to the buffer and returns the first key
        and the whole buffer. */
    method Finish() returns (first: Bytes, block: Bytes)
      modifies this`buf
      ensures buf == old(buf) + Trailer(old(restarts))
      ensures first == firstKey && block == buf
      ensures U32(|block|) == old(Size())
      ensures old(Building()) ==> block == Block(codec, keyRestartInterval, appended)
    {
      var i := 0;
      while i < |restarts|
        invariant 0 <= i <= |restarts|
        invariant buf == old(buf) + RestartWords(restarts[..i])
      {
        assert restarts[..i + 1] == restarts[..i] + [restarts[i]];
        RestartWordsSnoc(restarts[..i], restarts[i]);
        buf := buf + BE32(restarts[i]);
        i := i + 1;
      }
      assert restarts[..i] == restarts;
      buf := buf + BE32(U32(|restarts|));
      first, block := firstKey, buf;
    }

    /** Empties the writer for reuse; the next Append behaves as the first
        Append on a new writer. */
    method Reset()
      requires Configured()
      modifies this
      ensures buf == [] && count == 0 && restarts == [] && firstKey == [] && prevKey == []
      ensures appended == [] && Building()
    {
      buf := [];
      count := 0;
      restarts := [];
      firstKey := [];
      prevKey := [];
      appended := [];
    }
  }

  /** A writer in any state, once Reset, encodes the next pair exactly as a
      new writer with the same codec and interval does. */
  method ResetActsAsNew(w: BlockWriter, key: Bytes, value: Bytes)
      returns (reusedFirst: Bytes, reused: Bytes, newFirst: Bytes, fromNew: Bytes)
    requires w.Configured()
    modifies w
    ensures reusedFirst == newFirst == key
    ensures reused == fromNew
  {
    w.Reset();
    w.Append(key, value);
    reusedFirst, reused := w.Finish();
    var n := new BlockWriter(w.codec, w.keyRestartInterval);
    n.Append(key, value);
    newFirst, fromNew := n.Finish();
  }

  /** The two encodings BlockWriterTest pins: the unsigned integer 0 is the
      single byte 0, and the pair "foo" -> "bar" is 0xA3 "foo" 0xA3 "bar". */
  predicate MatchesFixture(codec: Codec)
  {
    codec.encUint(0) == [0] &&
    codec.encKv([102, 111, 111], [98, 97, 114]) == [0xA3, 102, 111, 111, 0xA3, 98, 97, 114]
  }

  /** The entry section for "foo" -> "bar": shared length 0, then key and value. */
  lemma FixtureEntryData(codec: Codec)
    requires MatchesFixture(codec)
    ensures EntryData(codec, 10, [KeyValue([102, 111, 111], [98, 97, 114])])
         == [0, 0xA3, 102, 111, 111, 0xA3, 98, 97, 114]
  {
    var foo: Bytes, bar: Bytes := [102, 111, 111], [98, 97, 114];
    OnePairEntryData(codec, 10, KeyValue(foo, bar));
  }

  /** The trailer of a block with one restart at offset 0. */
  lemma OneRestartTrailer()
    ensures Trailer([0]) == [0, 0, 0, 0, 0, 0, 0, 1]
  {
    BE32OfFromBE32([0, 0, 0, 0]);
    BE32OfFromBE32([0, 0, 0, 1]);
    RestartWordsSnoc([], 0);
  }

  /** The block BlockWriterTest expects for the single pair "foo" -> "bar"
      with a restart interval of 10: the entry, one restart at offset 0, and
      a restart count of 1. */
  lemma FixtureBlock(codec: Codec)
    requires MatchesFixture(codec)
    ensures Block(codec, 10, [KeyValue([102, 111, 111], [98, 97, 114])])
         == [0, 0xA3, 102, 111, 111, 0xA3, 98, 97, 114,
             0, 0, 0, 0,
             0, 0, 0, 1]
  {
    FixtureEntryData(codec);
    OneRestart(codec, 10, KeyValue([102, 111, 111], [98, 97, 114]));
    OneRestartTrailer();
  }

  /** BlockWriterTest.testWrite: a new writer with a restart interval of 10,
      one Append of "foo" -> "bar", then Finish, gives first key "foo" and
      the bytes of FixtureBlock. */
  method WriteOneEntry(codec: Codec) returns (first: Bytes, block: Bytes)
    requires MatchesFixture(codec)
    ensures first == [102, 111, 111]
    ensures block == [0, 0xA3, 102, 111, 111, 0xA3, 98, 97, 114,
                      0, 0, 0, 0,
                      0, 0, 0, 1]
  {
    var w := new BlockWriter(codec, 10);
    w.Append([102, 111, 111], [98, 97, 114]);
    first, block := w.Finish();
    FixtureBlock(codec);
  }
}
