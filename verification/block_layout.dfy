/** The byte layout of one tablet data block, as a function of the key/value
    pairs appended to it: prefix-compressed entries, restart points every
    `interval` entries, and the restart trailer. The block writer's state is
    specified by these functions; the lemmas state what a reader of the block
    can rely on. */
module BlockLayout {
  import opened Wire

  datatype Option<T> = None | Some(value: T)

  /** One appended pair. */
  datatype KeyValue = KeyValue(key: Bytes, value: Bytes)

  /** One encoded entry: the length of the prefix shared with the previous
      key, the rest of the key, and the value. */
  datatype Entry = Entry(shared: nat, suffix: Bytes, value: Bytes)

  /** Length of the longest common prefix of two byte strings. */
  function CommonPrefixLen(a: Bytes, b: Bytes): (n: nat)
    ensures n <= |a| && n <= |b|
    ensures a[..n] == b[..n]
    ensures n < |a| && n < |b| ==> a[n] != b[n]
    ensures a == b ==> n == |a|
  {
    if |a| == 0 || |b| == 0 || a[0] != b[0] then 0
    else 1 + CommonPrefixLen(a[1..], b[1..])
  }

  /** The three properties above pin the common prefix length down uniquely. */
  lemma CommonPrefixLenUnique(a: Bytes, b: Bytes, n: nat)
    requires n <= |a| && n <= |b|
    requires a[..n] == b[..n]
    requires n < |a| && n < |b| ==> a[n] != b[n]
    ensures n == CommonPrefixLen(a, b)
  {
  }

  /** The key of the last appended pair; empty before the first one. */
  function LastKey(kvs: seq<KeyValue>): (k: Bytes)
    ensures kvs != [] ==> k == kvs[|kvs| - 1].key
  {
    if kvs == [] then [] else kvs[|kvs| - 1].key
  }

  /** Entry number `i` (counting from 0) is a restart point. */
  predicate IsRestart(interval: nat, i: nat)
    requires interval > 0
  {
    i % interval == 0
  }

  /** The entry written for the `i`-th pair, whose predecessor key is `prev`:
      a restart entry stores the whole key, any other entry only the part of
      the key after the prefix it shares with `prev`. */
  function MakeEntry(interval: nat, i: nat, prev: Bytes, kv: KeyValue): (e: Entry)
    requires interval > 0
    ensures e.shared <= |kv.key| && e.shared <= |prev| && e.value == kv.value
    ensures IsRestart(interval, i) ==> e.shared == 0 && e.suffix == kv.key
  {
    var shared := if IsRestart(interval, i) then 0 else CommonPrefixLen(prev, kv.key);
    Entry(shared, kv.key[shared..], kv.value)
  }

  /** The key of an entry can be rebuilt from the previous key: its first
      `shared` bytes followed by the stored suffix are the key. */
  lemma MakeEntryRebuildsKey(interval: nat, i: nat, prev: Bytes, kv: KeyValue)
    requires interval > 0
    ensures var e := MakeEntry(interval, i, prev, kv);
      prev[..e.shared] + e.suffix == kv.key
  {
    var shared := MakeEntry(interval, i, prev, kv).shared;
    assert prev[..shared] == kv.key[..shared];
    assert kv.key == kv.key[..shared] + kv.key[shared..];
  }

  /** The entries of a block holding `kvs`, in append order. */
  function Entries(interval: nat, kvs: seq<KeyValue>): (es: seq<Entry>)
    requires interval > 0
    ensures |es| == |kvs|
    decreases |kvs|
  {
    if kvs == [] then []
    else
      var init := kvs[..|kvs| - 1];
      Entries(interval, init) + [MakeEntry(interval, |init|, LastKey(init), kvs[|kvs| - 1])]
  }

  /** Keys rebuilt from entries: each key is the shared prefix of the key
      before it followed by the stored suffix. None when an entry claims more
      shared bytes than its predecessor has. This is the reader's side of the
      prefix compression. */
  function Decompress(es: seq<Entry>): (r: Option<seq<KeyValue>>)
    ensures r.Some? ==> |r.value| == |es|
    decreases |es|
  {
    if es == [] then Some([])
    else
      match Decompress(es[..|es| - 1])
      case None => None
      case Some(kvs) =>
        var e := es[|es| - 1];
        var prev := LastKey(kvs);
        if e.shared <= |prev| then Some(kvs + [KeyValue(prev[..e.shared] + e.suffix, e.value)])
        else None
  }

  /** The bytes written for one entry: writeUint(shared) then writeKv(suffix, value). */
  function EntryBytes(codec: Codec, e: Entry): (r: Bytes)
    ensures |r| > 0
  {
    codec.encUint(e.shared) + codec.encKv(e.suffix, e.value)
  }

  /** The bytes of a sequence of entries, one after the other. */
  function Serialize(codec: Codec, es: seq<Entry>): (r: Bytes)
    ensures |r| >= |es|
    decreases |es|
  {
    if es == [] then []
    else Serialize(codec, es[..|es| - 1]) + EntryBytes(codec, es[|es| - 1])
  }

  /** The entry section of a block holding `kvs`; each entry takes at least one byte. */
  function EntryData(codec: Codec, interval: nat, kvs: seq<KeyValue>): (r: Bytes)
    requires interval > 0
    ensures |r| >= |kvs|
  {
    Serialize(codec, Entries(interval, kvs))
  }

  /** Byte offsets, within the entry section, of the restart entries of a
      block holding `kvs`, in append order. */
  function Restarts(codec: Codec, interval: nat, kvs: seq<KeyValue>): (rs: seq<nat>)
    requires interval > 0
    ensures |rs| <= |kvs|
    decreases |kvs|
  {
    if kvs == [] then []
    else
      var init := kvs[..|kvs| - 1];
      Restarts(codec, interval, init)
        + (if IsRestart(interval, |init|) then [|EntryData(codec, interval, init)|] else [])
  }

  /** One big-endian uint32 per restart offset, each cast to uint32. */
  function RestartWords(rs: seq<nat>): (r: Bytes)
    ensures |r| == 4 * |rs|
    decreases |rs|
  {
    if rs == [] then [] else RestartWords(rs[..|rs| - 1]) + BE32(U32(rs[|rs| - 1]))
  }

  /** The block trailer: the restart words, then the restart count as a big-endian uint32. */
  function Trailer(rs: seq<nat>): (r: Bytes)
    ensures |r| == 4 * |rs| + 4
  {
    RestartWords(rs) + BE32(U32(|rs|))
  }

  /** The finished block holding `kvs`: the entry section, four bytes per
      restart, and four bytes of restart count. */
  function Block(codec: Codec, interval: nat, kvs: seq<KeyValue>): (r: Bytes)
    requires interval > 0
    ensures |r| == |EntryData(codec, interval, kvs)| + 4 * |Restarts(codec, interval, kvs)| + 4
  {
    EntryData(codec, interval, kvs) + Trailer(Restarts(codec, interval, kvs))
  }

  // ---------------------------------------------------------------------------
  // Unfolding one append

  /** Appending one pair appends its entry, made against the previous last key. */
  lemma EntriesSnoc(interval: nat, kvs: seq<KeyValue>, kv: KeyValue)
    requires interval > 0
    ensures Entries(interval, kvs + [kv])
         == Entries(interval, kvs) + [MakeEntry(interval, |kvs|, LastKey(kvs), kv)]
  {
    assert (kvs + [kv])[..|kvs|] == kvs;
  }

  /** Serializing one more entry appends its bytes. */
  lemma SerializeSnoc(codec: Codec, es: seq<Entry>, e: Entry)
    ensures Serialize(codec, es + [e]) == Serialize(codec, es) + EntryBytes(codec, e)
  {
    assert (es + [e])[..|es|] == es;
  }

  /** Appending one pair appends exactly that pair's entry bytes to the entry section. */
  lemma EntryDataSnoc(codec: Codec, interval: nat, kvs: seq<KeyValue>, kv: KeyValue)
    requires interval > 0
    ensures EntryData(codec, interval, kvs + [kv])
         == EntryData(codec, interval, kvs) + EntryBytes(codec, MakeEntry(interval, |kvs|, LastKey(kvs), kv))
  {
    EntriesSnoc(interval, kvs, kv);
    SerializeSnoc(codec, Entries(interval, kvs), MakeEntry(interval, |kvs|, LastKey(kvs), kv));
  }

  /** Appending one pair adds a restart, at the old end of the entry section,
      exactly when the pair's index is a multiple of the interval. */
  lemma RestartsSnoc(codec: Codec, interval: nat, kvs: seq<KeyValue>, kv: KeyValue)
    requires interval > 0
    ensures Restarts(codec, interval, kvs + [kv])
         == Restarts(codec, interval, kvs)
            + (if IsRestart(interval, |kvs|) then [|EntryData(codec, interval, kvs)|] else [])
  {
    assert (kvs + [kv])[..|kvs|] == kvs;
  }

  /** The state of a block writer that has appended `kvs`: the entry
      buffer, the entry counter, the restart offsets, the first key and the
      previous key are those the layout prescribes. */
  ghost predicate Describes(codec: Codec, interval: nat, kvs: seq<KeyValue>,
                            buf: Bytes, count: nat, restarts: seq<nat>, firstKey: Bytes, prevKey: Bytes)
  {
    interval > 0 &&
    buf == EntryData(codec, interval, kvs) &&
    count == |kvs| &&
    restarts == Restarts(codec, interval, kvs) &&
    firstKey == (if kvs == [] then [] else kvs[0].key) &&
    prevKey == LastKey(kvs)
  }

  /** One append, as the block writer performs it, keeps Describes: the
      new entry goes after the old buffer, a restart is recorded at the old
      buffer length when the counter is a multiple of the interval, the
      first key is taken only while the buffer is empty. */
  lemma AppendKeepsDescribes(codec: Codec, interval: nat, kvs: seq<KeyValue>, kv: KeyValue,
                             buf: Bytes, count: nat, restarts: seq<nat>, firstKey: Bytes, prevKey: Bytes,
                             buf': Bytes, count': nat, restarts': seq<nat>, firstKey': Bytes, prevKey': Bytes)
    requires Describes(codec, interval, kvs, buf, count, restarts, firstKey, prevKey)
    requires buf' == buf + EntryBytes(codec, MakeEntry(interval, count, prevKey, kv))
    requires count' == count + 1
    requires restarts' == if IsRestart(interval, count) then restarts + [|buf|] else restarts
    requires firstKey' == if |buf| == 0 then kv.key else firstKey
    requires prevKey' == kv.key
    ensures Describes(codec, interval, kvs + [kv], buf', count', restarts', firstKey', prevKey')
  {
    EntryDataSnoc(codec, interval, kvs, kv);
    RestartsSnoc(codec, interval, kvs, kv);
  }

  /** Restart words of one more offset: its big-endian word goes after the others. */
  lemma RestartWordsSnoc(rs: seq<nat>, r: nat)
    ensures RestartWords(rs + [r]) == RestartWords(rs) + BE32(U32(r))
  {
    assert (rs + [r])[..|rs|] == rs;
  }

  // ---------------------------------------------------------------------------
  // Properties of the layout

  /** The entries at restart points carry the whole key (shared length 0). */
  lemma {:induction false} RestartEntryHoldsFullKey(interval: nat, kvs: seq<KeyValue>, i: nat)
    requires interval > 0 && i < |kvs| && IsRestart(interval, i)
    ensures Entries(interval, kvs)[i].shared == 0
    ensures Entries(interval, kvs)[i].suffix == kvs[i].key
  {
    EntryAt(interval, kvs, i);
  }

  /** Entry `i` is the entry of pair `i` against the key of pair `i - 1`. */
  lemma {:induction false} EntryAt(interval: nat, kvs: seq<KeyValue>, i: nat)
    requires interval > 0 && i < |kvs|
    ensures Entries(interval, kvs)[i] == MakeEntry(interval, i, LastKey(kvs[..i]), kvs[i])
    decreases |kvs|
  {
    var init := kvs[..|kvs| - 1];
    if i < |init| {
      EntryAt(interval, init, i);
      assert init[..i] == kvs[..i];
    } else {
      assert init == kvs[..i];
    }
  }

  /** Prefix compression loses nothing: decompressing the entries of a block
      gives back every appended pair, keys and values, in order. */
  lemma {:induction false} DecompressEntries(interval: nat, kvs: seq<KeyValue>)
    requires interval > 0
    ensures Decompress(Entries(interval, kvs)) == Some(kvs)
    decreases |kvs|
  {
    if kvs != [] {
      var init := kvs[..|kvs| - 1];
      var es := Entries(interval, kvs);
      assert es[..|es| - 1] == Entries(interval, init);
      DecompressEntries(interval, init);
      MakeEntryRebuildsKey(interval, |init|, LastKey(init), kvs[|kvs| - 1]);
      assert init + [kvs[|kvs| - 1]] == kvs;
    }
  }

  /** Every restart offset lies inside the entry section. */
  lemma {:induction false} RestartsBelowEnd(codec: Codec, interval: nat, kvs: seq<KeyValue>)
    requires interval > 0
    ensures forall j :: 0 <= j < |Restarts(codec, interval, kvs)| ==>
      Restarts(codec, interval, kvs)[j] < |EntryData(codec, interval, kvs)|
    decreases |kvs|
  {
    if kvs != [] {
      var init := kvs[..|kvs| - 1];
      RestartsBelowEnd(codec, interval, init);
      assert init + [kvs[|kvs| - 1]] == kvs;
      EntryDataSnoc(codec, interval, init, kvs[|kvs| - 1]);
    }
  }

  /** Restart offsets are strictly increasing, and the first one is 0. */
  lemma {:induction false} RestartsIncreasing(codec: Codec, interval: nat, kvs: seq<KeyValue>)
    requires interval > 0
    ensures forall j, l :: 0 <= j < l < |Restarts(codec, interval, kvs)| ==>
      Restarts(codec, interval, kvs)[j] < Restarts(codec, interval, kvs)[l]
    ensures kvs != [] ==> |Restarts(codec, interval, kvs)| > 0 && Restarts(codec, interval, kvs)[0] == 0
    decreases |kvs|
  {
    if kvs != [] {
      var init := kvs[..|kvs| - 1];
      RestartsIncreasing(codec, interval, init);
      RestartsBelowEnd(codec, interval, init);
      if init == [] {
        assert IsRestart(interval, 0);
      }
    }
  }

  /** A block with a single pair holds one restart entry: shared length 0 and the whole key. */
  lemma OnePairEntryData(codec: Codec, interval: nat, kv: KeyValue)
    requires interval > 0
    ensures EntryData(codec, interval, [kv]) == codec.encUint(0) + codec.encKv(kv.key, kv.value)
  {
    assert [kv][..0] == [];
    assert Entries(interval, [kv]) == [Entry(0, kv.key, kv.value)];
    assert [Entry(0, kv.key, kv.value)][..0] == [];
    assert Serialize(codec, [Entry(0, kv.key, kv.value)])
        == Serialize(codec, []) + EntryBytes(codec, Entry(0, kv.key, kv.value));
  }

  /** A block with a single pair has one restart, at offset 0. */
  lemma OneRestart(codec: Codec, interval: nat, kv: KeyValue)
    requires interval > 0
    ensures Restarts(codec, interval, [kv]) == [0]
  {
    assert [kv][..0] == [];
  }

  // Arithmetic helpers for RestartCount and RestartOffsetAt: the solver
  // does not find these nonlinear facts on its own.

  /** Quotient and remainder are unique. */
  lemma DivUnique(a: nat, k: nat, q: nat, r: nat)
    requires k > 0 && r < k && a == q * k + r
    ensures a / k == q && a % k == r
  {
    var d, m := a / k, a % k;
    assert a == d * k + m;
    if d > q {
      MulStep(d - q - 1, k);
    } else if d < q {
      MulStep(q - d - 1, k);
    }
  }

  /** One more multiple of k is at least k; used by DivUnique. */
  lemma MulStep(e: nat, k: nat)
    ensures (e + 1) * k >= k
  {
  }

  /** ceil((n + 1) / k) grows by one over ceil(n / k) exactly when k divides n. */
  lemma CeilStep(n: nat, k: nat)
    requires k > 0
    ensures (n + k) / k == (n + k - 1) / k + (if n % k == 0 then 1 else 0)
  {
    var q, r := n / k, n % k;
    if r == 0 {
      DivUnique(n + k - 1, k, q, k - 1);
      DivUnique(n + k, k, q + 1, 0);
    } else {
      DivUnique(n + k - 1, k, q + 1, r - 1);
      DivUnique(n + k, k, q + 1, r);
    }
  }

  /** A block of `n` pairs has ceil(n / interval) restart points. */
  lemma {:induction false} RestartCount(codec: Codec, interval: nat, kvs: seq<KeyValue>)
    requires interval > 0
    ensures |Restarts(codec, interval, kvs)| == (|kvs| + interval - 1) / interval
    decreases |kvs|
  {
    if kvs == [] {
      DivUnique(interval - 1, interval, 0, interval - 1);
    } else {
      var init := kvs[..|kvs| - 1];
      RestartCount(codec, interval, init);
      CeilStep(|init|, interval);
      assert |kvs| + interval - 1 == |init| + interval;
    }
  }

  /** The index `j * interval` of a restart pair is a valid nat; used by RestartOffsetAt. */
  lemma MulNonNegative(a: nat, b: nat)
    ensures a * b >= 0
  {
  }

  /** When k divides n, ceil(n / k) * k is n itself. */
  lemma CeilExact(n: nat, k: nat)
    requires k > 0 && n % k == 0
    ensures (n + k - 1) / k * k == n
  {
    var q := n / k;
    DivUnique(n + k - 1, k, q, k - 1);
  }

  /** The `j`-th restart offset is where the entry of pair `j * interval`
      begins: the length of the entry section of the first `j * interval` pairs. */
  lemma {:induction false} RestartOffsetAt(codec: Codec, interval: nat, kvs: seq<KeyValue>, j: nat)
    requires interval > 0 && j < |Restarts(codec, interval, kvs)|
    ensures 0 <= j * interval < |kvs|
    ensures Restarts(codec, interval, kvs)[j] == |EntryData(codec, interval, kvs[..j * interval])|
    decreases |kvs|
  {
    MulNonNegative(j, interval);
    assert kvs != [];
    var init, last := kvs[..|kvs| - 1], kvs[|kvs| - 1];
    assert init + [last] == kvs;
    var rs := Restarts(codec, interval, init);
    RestartsSnoc(codec, interval, init, last);
    var p := j * interval;
    if j < |rs| {
      RestartOffsetAt(codec, interval, init, j);
      assert kvs[..p] == init[..p];
    } else {
      assert IsRestart(interval, |init|) && j == |rs|;
      assert Restarts(codec, interval, kvs)[j] == |EntryData(codec, interval, init)|;
      RestartCount(codec, interval, init);
      CeilExact(|init|, interval);
      assert p == |init|;
      assert kvs[..p] == init;
    }
  }

  /** The trailer can be read back: its last word is the restart count and
      word `j` before it is restart offset `j` (cast to uint32). */
  lemma {:induction false} TrailerWordAt(rs: seq<nat>, j: nat)
    requires j < |rs|
    ensures FromBE32(RestartWords(rs)[4 * j .. 4 * j + 4]) == U32(rs[j])
    decreases |rs|
  {
    var init := rs[..|rs| - 1];
    RestartWordsSnoc(init, rs[|rs| - 1]);
    assert init + [rs[|rs| - 1]] == rs;
    if j < |init| {
      TrailerWordAt(init, j);
      assert RestartWords(rs)[4 * j .. 4 * j + 4] == RestartWords(init)[4 * j .. 4 * j + 4];
    } else {
      assert RestartWords(rs)[4 * j .. 4 * j + 4] == BE32(U32(rs[j]));
    }
  }

  /** The last trailer word decodes to the restart count (cast to uint32). */
  lemma TrailerCount(rs: seq<nat>)
    ensures FromBE32(Trailer(rs)[4 * |rs| ..]) == U32(|rs|)
  {
    assert Trailer(rs)[4 * |rs| ..] == BE32(U32(|rs|));
  }
}
