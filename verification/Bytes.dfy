/** Bytes and the 32-bit words of the wire format, most significant byte first. */
module Bytes {

  type byte = b: int | 0 <= b < 256
  type bytes = seq<byte>

  /** What `ntohl` after a 4-byte copy, or `load_big_u32`, reads at an offset. */
  function WordAt(s: bytes, i: nat): nat
    requires i + 4 <= |s|
  {
    s[i] as int * 0x100_0000 + s[i + 1] as int * 0x1_0000 + s[i + 2] as int * 0x100 + s[i + 3] as int
  }

  /** The four bytes that `htonl`, or `native_to_big`, puts on the wire. */
  function BigEndian(n: nat): (b: bytes)
    requires n < 0x1_0000_0000
    ensures |b| == 4
  {
    [n / 0x100_0000, n / 0x1_0000 % 0x100, n / 0x100 % 0x100, n % 0x100]
  }

  lemma WordOfBigEndian(n: nat)
    requires n < 0x1_0000_0000
    ensures WordAt(BigEndian(n), 0) == n
  {
    assert n / 0x1_0000 == n / 0x100 / 0x100;
    assert n / 0x100_0000 == n / 0x1_0000 / 0x100;
  }

  lemma BigEndianOfWord(s: bytes, i: nat)
    requires i + 4 <= |s|
    ensures WordAt(s, i) < 0x1_0000_0000
    ensures BigEndian(WordAt(s, i)) == s[i..i + 4]
  {
    var n := WordAt(s, i);
    assert n / 0x100 == s[i] as int * 0x1_0000 + s[i + 1] as int * 0x100 + s[i + 2] as int;
    assert n / 0x1_0000 == s[i] as int * 0x100 + s[i + 1] as int;
    assert n / 0x100_0000 == s[i] as int;
  }
}
