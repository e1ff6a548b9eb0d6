/** Byte images of the integers the repository stores in packets. */
module Bytes {

  type Byte = bv8

  /** The four bytes a little-endian machine stores for a 32-bit word. */
  function Le32(w: bv32): (s: seq<Byte>)
    ensures |s| == 4
  {
    [(w & 0xFF) as bv8, ((w >> 8) & 0xFF) as bv8, ((w >> 16) & 0xFF) as bv8, ((w >> 24) & 0xFF) as bv8]
  }

  function FromLe32(s: seq<Byte>): bv32
    requires |s| == 4
  {
    (s[0] as bv32) | ((s[1] as bv32) << 8) | ((s[2] as bv32) << 16) | ((s[3] as bv32) << 24)
  }

  function Le16(w: bv16): (s: seq<Byte>)
    ensures |s| == 2
  {
    [(w & 0xFF) as bv8, ((w >> 8) & 0xFF) as bv8]
  }

  function FromLe16(s: seq<Byte>): bv16
    requires |s| == 2
  {
    (s[0] as bv16) | ((s[1] as bv16) << 8)
  }

  /** The wire order of a 16-bit value: most significant byte first. */
  function Be16(w: bv16): (s: seq<Byte>)
    ensures |s| == 2
  {
    [((w >> 8) & 0xFF) as bv8, (w & 0xFF) as bv8]
  }

  /** `htons` and `ntohs` on a little-endian host. */
  function SwapBytes16(w: bv16): bv16 {
    ((w & 0xFF) << 8) | (w >> 8)
  }

  /** `htonl` and `ntohl` on a little-endian host. */
  function SwapBytes32(w: bv32): bv32 {
    ((w & 0xFF) << 24) | ((w & 0xFF00) << 8) | ((w >> 8) & 0xFF00) | (w >> 24)
  }

  /** The first four bytes are recovered from the word and the word from its bytes. */
  lemma Le32RoundTrip(w: bv32, s: seq<Byte>)
    requires |s| == 4
    ensures FromLe32(Le32(w)) == w
    ensures Le32(FromLe32(s)) == s
  {
    Le32Value(w);
    Le32Bytes(s[0], s[1], s[2], s[3]);
    assert s == [s[0], s[1], s[2], s[3]];
  }

  lemma Le32Value(w: bv32)
    ensures FromLe32(Le32(w)) == w
  {
  }

  lemma Le32Bytes(a: Byte, b: Byte, c: Byte, d: Byte)
    ensures Le32(FromLe32([a, b, c, d])) == [a, b, c, d]
  {
  }

  lemma Le16RoundTrip(w: bv16, a: Byte, b: Byte)
    ensures FromLe16(Le16(w)) == w
    ensures Le16(FromLe16([a, b])) == [a, b]
  {
  }

  /** Storing the swapped value on a little-endian host puts the value on the wire in network order. */
  lemma StoredSwapIsNetworkOrder(w: bv16)
    ensures Le16(SwapBytes16(w)) == Be16(w)
    ensures SwapBytes16(SwapBytes16(w)) == w
  {
  }
}
