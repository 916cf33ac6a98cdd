/** Bytes and the big-endian 32-bit integer encoding used for a frame's
    length field (Go's encoding/binary.BigEndian.PutUint32 / Uint32). */
module Bytes {

  type byte = x: int | 0 <= x < 0x100

  /** One more than the largest value a uint32 holds. */
  const Uint32Limit: nat := 0x1_0000_0000

  /** The four big-endian bytes of `n`. */
  function PutUint32(n: nat): (b: seq<byte>)
    requires n < Uint32Limit
    ensures |b| == 4
  {
    [n / 0x100_0000, (n / 0x1_0000) % 0x100, (n / 0x100) % 0x100, n % 0x100]
  }

  /** The uint32 whose big-endian bytes are `b`. */
  function Uint32(b: seq<byte>): (n: nat)
    requires |b| == 4
    ensures n < Uint32Limit
  {
    (b[0] as int) * 0x100_0000 + (b[1] as int) * 0x1_0000 + (b[2] as int) * 0x100 + (b[3] as int)
  }

  /** Reading back the bytes that PutUint32 wrote gives the number. */
  lemma Uint32OfPutUint32(n: nat)
    requires n < Uint32Limit
    ensures Uint32(PutUint32(n)) == n
  {
    var b := PutUint32(n);
    assert n == (n / 0x100) * 0x100 + b[3];
    assert n / 0x100 == (n / 0x1_0000) * 0x100 + b[2];
    assert n / 0x1_0000 == (n / 0x100_0000) * 0x100 + b[1];
  }

  /** Every 4-byte sequence is the encoding of the number it denotes. */
  lemma PutUint32OfUint32(b: seq<byte>)
    requires |b| == 4
    ensures PutUint32(Uint32(b)) == b
  {
    var n := Uint32(b);
    var hi: int := (b[0] as int) * 0x100 + b[1];
    assert n == (hi * 0x100 + b[2]) * 0x100 + (b[3] as int);
    assert n / 0x100 == hi * 0x100 + b[2];
    assert n / 0x1_0000 == hi;
    assert n / 0x100_0000 == b[0];
  }
}
