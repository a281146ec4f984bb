/**
  Cipher block chaining (section 6.2 of NIST SP 800-38A) over an abstract
  block cipher, as the library's CBC encryptor and decryptor compute it on a
  whole number of blocks.
*/
module Cbc {
  import opened Bytes
  import opened Aes

  /**
    C_1 = E(P_1 xor IV) and C_j = E(P_j xor C_(j-1)): each ciphertext block
    seeds the next. Encryption preserves length.
  */
  function Encrypt(c: BlockCipher, key: seq<byte>, iv: Block, p: seq<byte>): (r: seq<byte>)
    requires |p| % BlockSize == 0
    ensures |r| == |p|
    decreases |p|
  {
    if p == [] then []
    else
      var block := c.encrypt(key, XorBlock(p[..BlockSize], iv));
      block + Encrypt(c, key, block, p[BlockSize..])
  }

  /** P_1 = D(C_1) xor IV and P_j = D(C_j) xor C_(j-1). Decryption preserves length. */
  function Decrypt(c: BlockCipher, key: seq<byte>, iv: Block, ct: seq<byte>): (r: seq<byte>)
    requires |ct| % BlockSize == 0
    ensures |r| == |ct|
    decreases |ct|
  {
    if ct == [] then []
    else
      XorBlock(c.decrypt(key, ct[..BlockSize]), iv) + Decrypt(c, key, ct[..BlockSize], ct[BlockSize..])
  }

  /** The block preceding block j in the chain: the IV for the first block. */
  function Previous(iv: Block, s: seq<byte>, j: nat): Block
    requires j * BlockSize <= |s|
  {
    if j == 0 then iv else BlockAt(s, j - 1)
  }

  /** Every ciphertext block is the encryption of its plaintext block xor the previous ciphertext block. */
  lemma {:induction false} EncryptBlockAt(c: BlockCipher, key: seq<byte>, iv: Block, p: seq<byte>, j: nat)
    requires |p| % BlockSize == 0 && (j + 1) * BlockSize <= |p|
    ensures var r := Encrypt(c, key, iv, p);
      BlockAt(r, j) == c.encrypt(key, XorBlock(BlockAt(p, j), Previous(iv, r, j)))
    decreases j
  {
    var r := Encrypt(c, key, iv, p);
    var block := c.encrypt(key, XorBlock(p[..BlockSize], iv));
    var rest := Encrypt(c, key, block, p[BlockSize..]);
    assert r == block + rest;
    if j == 0 {
      BlockAtFront(block, rest);
    } else {
      EncryptBlockAt(c, key, block, p[BlockSize..], j - 1);
      BlockAtTail(p, j);
      BlockAtCons(block, rest, j - 1);
      if j >= 2 {
        BlockAtCons(block, rest, j - 2);
      }
    }
  }

  /** Every plaintext block is the decryption of its ciphertext block xor the previous ciphertext block. */
  lemma {:induction false} DecryptBlockAt(c: BlockCipher, key: seq<byte>, iv: Block, ct: seq<byte>, j: nat)
    requires |ct| % BlockSize == 0 && (j + 1) * BlockSize <= |ct|
    ensures BlockAt(Decrypt(c, key, iv, ct), j) == XorBlock(c.decrypt(key, BlockAt(ct, j)), Previous(iv, ct, j))
    decreases j
  {
    var head := XorBlock(c.decrypt(key, ct[..BlockSize]), iv);
    var rest := Decrypt(c, key, ct[..BlockSize], ct[BlockSize..]);
    assert Decrypt(c, key, iv, ct) == head + rest;
    if j == 0 {
      BlockAtFront(head, rest);
    } else {
      DecryptBlockAt(c, key, ct[..BlockSize], ct[BlockSize..], j - 1);
      BlockAtTail(ct, j);
      BlockAtCons(head, rest, j - 1);
      if j >= 2 {
        BlockAtTail(ct, j - 1);
      }
    }
  }

  /** Under a cipher whose decryption inverts its encryption, CBC decryption with the same key and IV inverts CBC encryption. */
  lemma {:induction false} DecryptEncrypt(c: BlockCipher, key: seq<byte>, iv: Block, p: seq<byte>)
    requires Inverts(c) && IsAesKey(key)
    requires |p| % BlockSize == 0
    ensures Decrypt(c, key, iv, Encrypt(c, key, iv, p)) == p
    decreases |p|
  {
    if p != [] {
      var block := c.encrypt(key, XorBlock(p[..BlockSize], iv));
      var rest := Encrypt(c, key, block, p[BlockSize..]);
      var ct: seq<byte> := block + rest;
      assert ct[..BlockSize] == block && ct[BlockSize..] == rest;
      XorBlockCancel(p[..BlockSize], iv);
      DecryptEncrypt(c, key, block, p[BlockSize..]);
      assert p == p[..BlockSize] + p[BlockSize..];
    }
  }

  /** When the cipher is a permutation, CBC encryption also inverts CBC decryption. */
  lemma {:induction false} EncryptDecrypt(c: BlockCipher, key: seq<byte>, iv: Block, ct: seq<byte>)
    requires IsPermutation(c) && IsAesKey(key)
    requires |ct| % BlockSize == 0
    ensures Encrypt(c, key, iv, Decrypt(c, key, iv, ct)) == ct
    decreases |ct|
  {
    if ct != [] {
      var first: Block := ct[..BlockSize];
      var head := XorBlock(c.decrypt(key, first), iv);
      var rest := Decrypt(c, key, first, ct[BlockSize..]);
      var p: seq<byte> := head + rest;
      assert p[..BlockSize] == head && p[BlockSize..] == rest;
      XorBlockCancel(c.decrypt(key, first), iv);
      EncryptDecrypt(c, key, first, ct[BlockSize..]);
      assert ct == first + ct[BlockSize..];
    }
  }
}
