/**
  The encryption envelope of the-stuff.py: key generation, encryption of a
  plaintext into IV ++ AES-CBC(PKCS#7(plaintext)), and the inverse decoding.
  Random bytes, which the source draws from os.urandom, are parameters.
*/
module Envelope {
  import opened Bytes
  import opened Wrappers
  import opened Aes
  import Pkcs7
  import Cbc

  /** generate_key returns 32 random bytes: an AES-256 key. */
  const KeySize: nat := 32

  /** The IV is one AES block, the prefix of every envelope. */
  const IvSize: nat := BlockSize

  /** The library errors decrypt_code can raise on a malformed or tampered envelope. */
  datatype Error =
    | InvalidIvSize    // fewer than 16 bytes: the IV taken from the front is too short
    | IncompleteBlock  // the ciphertext after the IV is not a whole number of blocks
    | InvalidPadding   // the decrypted data does not end in valid PKCS#7 padding

  /** A key made of the first 32 bytes the entropy source yields. */
  function GenerateKey(entropy: seq<byte>): (key: seq<byte>)
    requires |entropy| >= KeySize
    ensures |key| == KeySize && IsAesKey(key)
    ensures key <= entropy
  {
    entropy[..KeySize]
  }

  /**
    Pads the plaintext, CBC-encrypts it under the key and the IV, and puts the
    IV in front. The envelope is the IV followed by one more block than the
    plaintext has whole blocks.
  */
  function EncryptCode(c: BlockCipher, plaintext: seq<byte>, key: seq<byte>, iv: Block): (envelope: seq<byte>)
    requires IsAesKey(key)
    ensures |envelope| == IvSize + BlockSize * (|plaintext| / BlockSize + 1)
    ensures envelope[..IvSize] == iv
  {
    iv + Cbc.Encrypt(c, key, iv, Pkcs7.Pad(plaintext))
  }

  /**
    Splits the envelope at offset 16 into IV and ciphertext, CBC-decrypts the
    ciphertext and strips the padding. Each library error is reported; a
    success never returns part of a plaintext.
  */
  function DecryptCode(c: BlockCipher, envelope: seq<byte>, key: seq<byte>): (r: Result<seq<byte>, Error>)
    requires IsAesKey(key)
    ensures r == Failure(InvalidIvSize) <==> |envelope| < IvSize
    ensures r == Failure(IncompleteBlock) <==> IvSize <= |envelope| && (|envelope| - IvSize) % BlockSize != 0
    ensures |envelope| == IvSize ==> r == Failure(InvalidPadding)
    ensures r.Success? ==>
      && IvSize + BlockSize <= |envelope|
      && |envelope| - IvSize - BlockSize <= |r.value| < |envelope| - IvSize
  {
    if |envelope| < IvSize then Failure(InvalidIvSize)
    else
      var iv, ciphertext := envelope[..IvSize], envelope[IvSize..];
      if |ciphertext| % BlockSize != 0 then Failure(IncompleteBlock)
      else
        match Pkcs7.Unpad(Cbc.Decrypt(c, key, iv, ciphertext))
        case None => Failure(InvalidPadding)
        case Some(plaintext) => Success(plaintext)
  }

  /** Decrypting an envelope with the key it was made under gives back the plaintext, for every plaintext, AES key and IV. */
  lemma RoundTrip(c: BlockCipher, plaintext: seq<byte>, key: seq<byte>, iv: Block)
    requires Inverts(c) && IsAesKey(key)
    ensures DecryptCode(c, EncryptCode(c, plaintext, key, iv), key) == Success(plaintext)
  {
    var padded := Pkcs7.Pad(plaintext);
    var ciphertext := Cbc.Encrypt(c, key, iv, padded);
    var envelope := iv + ciphertext;
    assert envelope[..IvSize] == iv && envelope[IvSize..] == ciphertext;
    Cbc.DecryptEncrypt(c, key, iv, padded);
    Pkcs7.UnpadPad(plaintext);
  }

  /**
    Under a permutation cipher, decryption succeeds only on an envelope that
    encrypting its result under the same key and the envelope's own IV
    reproduces byte for byte.
  */
  lemma DecryptOnlyAcceptsEncryptions(c: BlockCipher, envelope: seq<byte>, key: seq<byte>)
    requires IsPermutation(c) && IsAesKey(key)
    requires DecryptCode(c, envelope, key).Success?
    ensures |envelope| >= IvSize
    ensures envelope == EncryptCode(c, DecryptCode(c, envelope, key).value, key, envelope[..IvSize])
  {
    var iv: Block := envelope[..IvSize];
    var ciphertext := envelope[IvSize..];
    var plaintext := DecryptCode(c, envelope, key).value;
    Pkcs7.UnpadIffPad(Cbc.Decrypt(c, key, iv, ciphertext), plaintext);
    Cbc.EncryptDecrypt(c, key, iv, ciphertext);
    assert envelope == iv + ciphertext;
  }

  /**
    With no integrity tag, a changed ciphertext is still caught this far: two
    different envelopes with the same IV never both decrypt to the same
    plaintext, so a tampered ciphertext either fails or decrypts to something else.
  */
  lemma TamperedCiphertextChangesResult(c: BlockCipher, envelope: seq<byte>, tampered: seq<byte>, key: seq<byte>)
    requires IsPermutation(c) && IsAesKey(key)
    requires IvSize <= |envelope| && IvSize <= |tampered|
    requires envelope[..IvSize] == tampered[..IvSize] && envelope != tampered
    requires DecryptCode(c, envelope, key).Success?
    ensures DecryptCode(c, tampered, key) != DecryptCode(c, envelope, key)
  {
    if DecryptCode(c, tampered, key) == DecryptCode(c, envelope, key) {
      DecryptOnlyAcceptsEncryptions(c, envelope, key);
      DecryptOnlyAcceptsEncryptions(c, tampered, key);
    }
  }

  /**
    The main block: a generated key, an encryption, and a decryption of the
    envelope read back with the same key recover the source text.
  */
  lemma MainBlockRoundTrip(c: BlockCipher, entropy: seq<byte>, iv: Block, source: seq<byte>)
    requires Inverts(c) && |entropy| >= KeySize
    ensures var key := GenerateKey(entropy);
      DecryptCode(c, EncryptCode(c, source, key, iv), key) == Success(source)
  {
    RoundTrip(c, source, GenerateKey(entropy), iv);
  }
}
