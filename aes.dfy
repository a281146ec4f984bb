/**
  The AES block cipher (FIPS 197) as a pair of functions on 16-byte blocks.
  Its internals belong to the cryptographic library and are not modelled;
  every operation that depends on it takes the cipher as a parameter, and the
  laws it must satisfy are predicates that lemmas require.
*/
module Aes {
  import opened Bytes

  /** Key lengths AES accepts in CBC mode: 128, 192 or 256 bits. */
  predicate IsAesKey(key: seq<byte>) {
    |key| == 16 || |key| == 24 || |key| == 32
  }

  /** Block encryption and decryption under a key. */
  datatype BlockCipher = BlockCipher(
    encrypt: (seq<byte>, Block) -> Block,
    decrypt: (seq<byte>, Block) -> Block)

  /** Decryption undoes encryption under every valid key. */
  ghost predicate Inverts(c: BlockCipher) {
    forall key: seq<byte>, b: Block :: IsAesKey(key) ==> c.decrypt(key, c.encrypt(key, b)) == b
  }

  /** AES under a fixed key is a permutation of blocks: each direction undoes the other. */
  ghost predicate IsPermutation(c: BlockCipher) {
    && Inverts(c)
    && forall key: seq<byte>, b: Block :: IsAesKey(key) ==> c.encrypt(key, c.decrypt(key, b)) == b
  }

  /** XOR with the first key block: a stand-in cipher showing that the laws above can be met. */
  function XorCipher(): BlockCipher {
    var mask := (key: seq<byte>) => if |key| >= BlockSize then key[..BlockSize] else seq(BlockSize, _ => 0);
    BlockCipher((key, b) => XorBlock(b, mask(key)), (key, b) => XorBlock(b, mask(key)))
  }

  /** The cipher laws are consistent: some cipher satisfies both. */
  lemma PermutationExists()
    ensures exists c :: IsPermutation(c)
  {
    var c := XorCipher();
    forall key: seq<byte>, b: Block | IsAesKey(key)
      ensures c.decrypt(key, c.encrypt(key, b)) == b && c.encrypt(key, c.decrypt(key, b)) == b
    {
      XorBlockCancel(b, key[..BlockSize]);
    }
    assert IsPermutation(c);
  }
}
