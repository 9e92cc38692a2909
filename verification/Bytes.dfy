/** Bytes and the little-endian 32-bit words that the drivers copy them through. */
module Bytes {
  type Byte = x: int | 0 <= x < 256

  const WORD_LIMIT: int := 0x1_0000_0000

  type Word = x: int | 0 <= x < WORD_LIMIT

  /** The i-th byte, or zero past the end. */
  function ByteAt(bs: seq<Byte>, i: nat): int {
    if i < |bs| then bs[i] else 0
  }

  /** At most four bytes as a word, the first byte lowest and missing bytes zero. */
  function Pack(bs: seq<Byte>): (w: Word)
    requires |bs| <= 4
  {
    ByteAt(bs, 0) + 0x100 * ByteAt(bs, 1) + 0x1_0000 * ByteAt(bs, 2) + 0x100_0000 * ByteAt(bs, 3)
  }

  function Unpack(w: Word): (bs: seq<Byte>)
    ensures |bs| == 4
  {
    [w % 0x100, w / 0x100 % 0x100, w / 0x1_0000 % 0x100, w / 0x100_0000]
  }

  /** The lowest byte first. */
  lemma UnpackIsLittleEndian(w: Word)
    ensures var bs := Unpack(w);
            w == ByteAt(bs, 0) + 0x100 * ByteAt(bs, 1) + 0x1_0000 * ByteAt(bs, 2) + 0x100_0000 * ByteAt(bs, 3)
  {
    assert w / 0x100 / 0x100 == w / 0x1_0000 && w / 0x1_0000 / 0x100 == w / 0x100_0000;
  }

  function Zeros(n: nat): (bs: seq<Byte>)
    ensures |bs| == n && forall i :: 0 <= i < n ==> bs[i] == 0
  {
    seq(n, _ => 0)
  }

  /** Copying bytes into a zeroed word and reading the word back gives them back. */
  lemma UnpackPack(bs: seq<Byte>)
    requires |bs| <= 4
    ensures Unpack(Pack(bs)) == bs + Zeros(4 - |bs|)
  {
    var b1, b2, b3 := ByteAt(bs, 1), ByteAt(bs, 2), ByteAt(bs, 3);
    assert Pack(bs) / 0x100 == b1 + 0x100 * b2 + 0x1_0000 * b3;
    assert Pack(bs) / 0x1_0000 == b2 + 0x100 * b3;
  }
}
