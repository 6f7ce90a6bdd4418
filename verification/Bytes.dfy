/** Little-endian 32-bit words: the only multi-byte quantity the binary format adds by itself. */
module Bytes {
  type byte = x: int | 0 <= x < 256
  type bytes = seq<byte>
  type u32 = x: int | 0 <= x < TWO_32

  const TWO_32: int := 0x1_0000_0000

  /** The four bytes of a u32 on the little-endian targets the engine runs on. */
  function LE32(n: u32): (r: bytes)
    ensures |r| == 4
  {
    [n % 256, n / 256 % 256, n / 65536 % 256, n / 16777216]
  }

  function FromLE32(b: bytes): u32
    requires |b| == 4
  {
    b[0] as int + 256 * b[1] as int + 65536 * b[2] as int + 16777216 * b[3] as int
  }

  /** A u32 written by `LE32` is read back by `FromLE32`. */
  lemma LE32RoundTrip(n: u32)
    ensures FromLE32(LE32(n)) == n
  {
    assert n % 65536 == n % 256 + 256 * (n / 256 % 256);
    assert n / 65536 == n / 65536 % 256 + 256 * (n / 16777216);
  }

  /** The lowest byte comes first: it is the remainder by 256, and without it the bytes hold the quotient. */
  lemma LowestFirst(b: bytes)
    requires |b| == 4
    ensures b[0] as int == FromLE32(b) % 256 && FromLE32(b[1..] + [0]) == FromLE32(b) / 256 && LE32(FromLE32(b)) == b
  {
    var n, c := FromLE32(b), b[1..] + [0];
    assert c[0] == b[1] && c[1] == b[2] && c[2] == b[3] && c[3] == 0;
    assert n == b[0] as int + 256 * FromLE32(c);
    assert n / 256 == FromLE32(c) && n / 65536 == b[2] as int + 256 * b[3] as int && n / 16777216 == b[3] as int;
  }
}
