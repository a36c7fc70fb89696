/** Raw byte buffers and the 16-bit fields stored in them. */
module Bytes {
  newtype byte = x: int | 0 <= x < 256

  const U16_LIMIT: nat := 0x1_0000

  // A little-endian uint16_t at byte offset p.
  function GetU16(c: seq<byte>, p: nat): (v: nat)
    requires p + 2 <= |c|
    ensures v < U16_LIMIT
  {
    c[p] as nat + 256 * (c[p + 1] as nat)
  }

  function U16Bytes(v: nat): (b: seq<byte>)
    requires v < U16_LIMIT
    ensures |b| == 2 && GetU16(b, 0) == v
  {
    [(v % 256) as byte, (v / 256) as byte]
  }

  // memcpy/memmove of b into c at offset p; b is read completely before c changes.
  function Overwrite(c: seq<byte>, p: nat, b: seq<byte>): (r: seq<byte>)
    requires p + |b| <= |c|
    ensures |r| == |c|
    ensures forall k :: 0 <= k < |c| ==> r[k] == if p <= k < p + |b| then b[k - p] else c[k]
  {
    c[..p] + b + c[p + |b|..]
  }
}
