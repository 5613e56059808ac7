/** Byte-level vocabulary shared by the SDCP protocol engine model. */
module Common {

  /** An octet on the wire. */
  newtype Byte = b: int | 0 <= b < 256
  type Bytes = seq<Byte>

  /** Absent-or-present value; stands for a nullable pointer of the driver. */
  datatype Option<+T> = None | Some(value: T)

  /** The largest value a 16-bit unsigned field can hold, plus one. */
  const U16Bound: nat := 0x1_0000

  /** The 16-bit unsigned field stored in the two bytes at `at`, read
      little-endian (low byte first). */
  function Le16At(b: Bytes, at: nat): (v: nat)
    requires at + 2 <= |b|
    ensures v < U16Bound
    ensures v % 256 == b[at] as int && v / 256 == b[at + 1] as int
  {
    b[at] as int + 256 * (b[at + 1] as int)
  }

  /** The two-byte little-endian representation of a 16-bit value. */
  function Le16(v: nat): (r: Bytes)
    requires v < U16Bound
    ensures |r| == 2
    ensures Le16At(r, 0) == v
  {
    [(v % 256) as Byte, (v / 256) as Byte]
  }

  /** Every two-byte field is the encoding of the value read from it. */
  lemma Le16OfLe16At(b: Bytes, at: nat)
    requires at + 2 <= |b|
    ensures Le16(Le16At(b, at)) == b[at..at + 2]
  {
    var v := Le16At(b, at);
    assert (v % 256) as Byte == b[at];
    assert (v / 256) as Byte == b[at + 1];
  }
}
