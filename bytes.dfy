/** Bytes, little-endian 32-bit words, and the outcome types shared by the model. */
module Bytes {

  /** An unsigned octet as stored on the medium. */
  type byte = b: int | 0 <= b < 256

  datatype Option<+T> = None | Some(value: T)

  /** What an engine call ends in: a value, a runtime exception (a failed read
      dereferenced as null, an index outside an array), or a loop that never ends. */
  datatype Outcome<+T> = Done(value: T) | Crash | Diverge

  const TwoTo32: nat := 0x1_0000_0000

  /** The unsigned 32-bit value of four little-endian bytes starting at `off`
      (the engine's `convertBytes2Long(b3, b2, b1, b0)`). */
  function Le32At(s: seq<byte>, off: nat): (v: nat)
    requires off + 4 <= |s|
    ensures v < TwoTo32
    ensures v % 256 == s[off]
  {
    var high: nat := s[off + 1] as int + 256 * s[off + 2] as int + 65536 * s[off + 3] as int;
    LowByte(s[off], high);
    s[off] + 256 * high
  }

  /** The low byte of `lo + 256 * high` is lo. */
  lemma LowByte(lo: byte, high: nat)
    ensures (lo + 256 * high) % 256 == lo
  {
  }

  /** The four little-endian bytes of a 32-bit value (the engine's
      `convertULong2Bytes`, stored lowest byte first). */
  function Le32Bytes(v: nat): (r: seq<byte>)
    requires v < TwoTo32
    ensures |r| == 4
  {
    [v % 256, (v / 256) % 256, (v / 65536) % 256, v / 16777216]
  }

  lemma Le32RoundTrip(v: nat)
    requires v < TwoTo32
    ensures Le32At(Le32Bytes(v), 0) == v
  {
    var q1 := v / 256;
    var q2 := q1 / 256;
    var q3 := q2 / 256;
    assert v == v % 256 + 256 * q1;
    assert q1 == q1 % 256 + 256 * q2;
    assert q2 == q2 % 256 + 256 * q3;
    assert q2 == v / 65536 && q3 == v / 16777216;
    assert q3 < 256;
  }

  /** Writing a word over bytes `off .. off+3` of `s` and reading it back gives the word,
      and no other byte of `s` changes. */
  function PutLe32(s: seq<byte>, off: nat, v: nat): (r: seq<byte>)
    requires off + 4 <= |s| && v < TwoTo32
    ensures |r| == |s|
    ensures Le32At(r, off) == v
    ensures forall k :: 0 <= k < |s| && !(off <= k < off + 4) ==> r[k] == s[k]
  {
    Le32RoundTrip(v);
    s[..off] + Le32Bytes(v) + s[off + 4..]
  }
}
