/** Bytes as integers in 0..255, with the big-endian field helpers. */
module Bytes {

  type byte = b: int | 0 <= b < 256

  /** The bytes of a C string: none of them is NUL. */
  predicate IsCString(s: seq<byte>) {
    forall i :: 0 <= i < |s| ==> s[i] != 0
  }

  /** Reads a big-endian 16-bit value at offset `at`. */
  function PeekBe16(b: seq<byte>, at: nat): (n: nat)
    requires at + 2 <= |b|
    ensures n < 0x1_0000
  {
    (b[at] as int) * 256 + (b[at + 1] as int)
  }

  /** Reads a big-endian 32-bit value at offset `at`. */
  function PeekBe32(b: seq<byte>, at: nat): (n: nat)
    requires at + 4 <= |b|
    ensures n < 0x1_0000_0000
  {
    PeekBe16(b, at) * 0x1_0000 + PeekBe16(b, at + 2)
  }

  /** Big-endian 16-bit encoding; reading it back gives the value. */
  function Be16(n: nat): (b: seq<byte>)
    requires n < 0x1_0000
    ensures |b| == 2 && PeekBe16(b, 0) == n
  {
    [n / 256, n % 256]
  }

  /** Big-endian 32-bit encoding; reading it back gives the value. */
  function Be32(n: nat): (b: seq<byte>)
    requires n < 0x1_0000_0000
    ensures |b| == 4 && PeekBe32(b, 0) == n
  {
    var hi := Be16(n / 0x1_0000);
    var lo := Be16(n % 0x1_0000);
    assert PeekBe16(hi + lo, 0) == PeekBe16(hi, 0);
    assert PeekBe16(hi + lo, 2) == PeekBe16(lo, 0);
    hi + lo
  }
}
