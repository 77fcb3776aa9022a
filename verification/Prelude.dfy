/** Bytes, little-endian integers and the small option type every other module uses. */
module Prelude {
  type byte = b: int | 0 <= b < 256
  type bytes = seq<byte>
  type u32 = n: int | 0 <= n < 0x1_0000_0000
  type u16 = n: int | 0 <= n < 0x1_0000

  const TWO32: int := 0x1_0000_0000

  datatype Option<+T> = None | Some(value: T)

  /** Two bytes, least significant first. */
  function LE16(n: u16): bytes { [n % 256, n / 256] }

  function FromLE16(b: bytes): u16
    requires |b| == 2
  {
    b[0] as int + 256 * b[1] as int
  }

  lemma LE16RoundTrip(n: u16)
    ensures FromLE16(LE16(n)) == n
  {
  }

  lemma LE16Encodes(b: bytes)
    requires |b| == 2
    ensures LE16(FromLE16(b)) == b
  {
  }

  /** Four bytes, least significant first. */
  function LE32(n: u32): bytes { LE16(n % 65536) + LE16(n / 65536) }

  function FromLE32(b: bytes): u32
    requires |b| == 4
  {
    FromLE16(b[..2]) as int + 65536 * FromLE16(b[2..]) as int
  }

  lemma LE32Decodes(n: u32)
    ensures |LE32(n)| == 4 && FromLE32(LE32(n)) == n
  {
    assert LE32(n)[..2] == LE16(n % 65536) && LE32(n)[2..] == LE16(n / 65536);
    LE16RoundTrip(n % 65536);
    LE16RoundTrip(n / 65536);
  }

  lemma LE32Encodes(b: bytes)
    requires |b| == 4
    ensures LE32(FromLE32(b)) == b
  {
    var low, high := FromLE16(b[..2]) as int, FromLE16(b[2..]) as int;
    assert (low + 65536 * high) % 65536 == low && (low + 65536 * high) / 65536 == high;
    LE16Encodes(b[..2]);
    LE16Encodes(b[2..]);
  }

  lemma Assoc(a: bytes, b: bytes, c: bytes)
    ensures a + b + c == a + (b + c)
  {
  }

  /** Concatenation of all parts, in order. */
  function Concat(parts: seq<bytes>): bytes {
    if parts == [] then [] else parts[0] + Concat(parts[1..])
  }
}
