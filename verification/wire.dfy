/** Byte-level primitives used by the block encoder: bytes, Go's uint32
    conversion, big-endian 32-bit words, and the entry codec whose
    implementation (writeUint, writeKv) is not part of this model. */
module Wire {

  type byte = x: int | 0 <= x < 0x100
  type Bytes = seq<byte>
  type u32 = x: int | 0 <= x < 0x1_0000_0000

  /** A byte sequence holding at least one byte. */
  type NonEmptyBytes = s: Bytes | |s| > 0 witness [0]

  /** Go's `uint32(n)` conversion of a non-negative length: keeps the low 32 bits. */
  function U32(n: nat): (r: u32)
    ensures n < 0x1_0000_0000 ==> r == n
    ensures r <= n
    ensures (n - r) % 0x1_0000_0000 == 0
  {
    n % 0x1_0000_0000
  }

  /** The four bytes `binary.Write(buf, binary.BigEndian, x)` emits for a uint32 `x`. */
  function BE32(x: u32): (r: Bytes)
    ensures |r| == 4
    ensures FromBE32(r) == x
  {
    var hi, lo := x / 0x1_0000, x % 0x1_0000;
    assert x == hi * 0x1_0000 + lo;
    var r := [hi / 0x100, hi % 0x100, lo / 0x100, lo % 0x100];
    assert hi == r[0] * 0x100 + r[1] && lo == r[2] * 0x100 + r[3];
    r
  }

  /** Reads a big-endian 32-bit word back; the inverse of BE32. */
  function FromBE32(r: Bytes): (x: u32)
    requires |r| == 4
  {
    (r[0] as int) * 0x100_0000 + (r[1] as int) * 0x1_0000 + (r[2] as int) * 0x100 + (r[3] as int)
  }

  /** Decoding any four bytes and encoding the word again gives the same bytes. */
  lemma BE32OfFromBE32(r: Bytes)
    requires |r| == 4
    ensures BE32(FromBE32(r)) == r
  {
    var hi: int := (r[0] as int) * 0x100 + r[1] as int;
    var lo: int := (r[2] as int) * 0x100 + r[3] as int;
    assert 0 <= lo < 0x1_0000;
    assert FromBE32(r) == hi * 0x1_0000 + lo;
    assert FromBE32(r) / 0x1_0000 == hi && FromBE32(r) % 0x1_0000 == lo;
    assert hi / 0x100 == r[0] && hi % 0x100 == r[1];
    assert lo / 0x100 == r[2] && lo % 0x100 == r[3];
  }

  /** The two entry encoders the block writer calls: `writeUint(buf, shared)`
      and `writeKv(buf, suffix, value)`. Their byte formats are left abstract;
      the one assumption is that an unsigned integer is always written as at
      least one byte. */
  datatype Codec = Codec(encUint: nat -> NonEmptyBytes, encKv: (Bytes, Bytes) -> Bytes)
}
