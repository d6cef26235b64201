/** Bytes as numbers, and the little-endian fields made of them. */
module Octets {
  type Octet = x: int | 0 <= x < 256 witness 0

  function Le16(s: seq<Octet>, at: nat): int
    requires at + 2 <= |s|
  {
    var low: int, high: int := s[at], s[at + 1];
    low + 256 * high
  }

  function Le32(s: seq<Octet>, at: nat): int
    requires at + 4 <= |s|
  {
    Le16(s, at) + 0x1_0000 * Le16(s, at + 2)
  }

  /** A byte read as a `char`, which is signed on x86. */
  function Char(b: Octet): int { if b < 128 then b else b - 256 }
}
