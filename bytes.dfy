/** Bytes and 16-byte cipher blocks. */
module Bytes {

  /** A byte. Bit-vectors give XOR directly. */
  type byte = bv8

  /** The AES block size in bytes (128 bits). It is also the CBC IV size. */
  const BlockSize: nat := 16

  /** One cipher block. */
  type Block = s: seq<byte> | |s| == BlockSize witness seq(BlockSize, _ => 0)

  /** Byte-wise exclusive or of two blocks. */
  function XorBlock(a: Block, b: Block): (r: Block)
    ensures forall i | 0 <= i < BlockSize :: r[i] == a[i] ^ b[i]
  {
    seq(BlockSize, i requires 0 <= i < BlockSize => a[i] ^ b[i])
  }

  /** XOR with the same block twice is the identity, which is what lets CBC decryption undo chaining. */
  lemma XorBlockCancel(a: Block, b: Block)
    ensures XorBlock(XorBlock(a, b), b) == a
  {
    assert forall i | 0 <= i < BlockSize :: XorBlock(XorBlock(a, b), b)[i] == a[i];
  }

  /** The j-th block of a sequence whose length is a multiple of the block size. */
  function BlockAt(s: seq<byte>, j: nat): Block
    requires (j + 1) * BlockSize <= |s|
  {
    s[j * BlockSize .. (j + 1) * BlockSize]
  }

  /** Dropping the first block shifts block indices down by one. */
  lemma BlockAtTail(s: seq<byte>, j: nat)
    requires 1 <= j && (j + 1) * BlockSize <= |s|
    ensures BlockAt(s, j) == BlockAt(s[BlockSize..], j - 1)
  {
  }

  /** A block glued in front shifts block indices up by one. */
  lemma BlockAtCons(b: Block, s: seq<byte>, j: nat)
    requires (j + 1) * BlockSize <= |s|
    ensures BlockAt(b + s, j + 1) == BlockAt(s, j)
  {
  }

  /** A block glued in front is block 0. */
  lemma BlockAtFront(b: Block, s: seq<byte>)
    ensures BlockAt(b + s, 0) == b
  {
  }
}
