# Encryption envelope of `the-stuff.py`, in Dafny

The script `the-stuff.py` protects a piece of source code with a small
envelope format. `generate_key` draws a 32-byte AES-256 key. `encrypt_code`
pads the plaintext with PKCS#7 to the 16-byte AES block, encrypts it with AES
in CBC mode under a fresh 16-byte IV and returns `IV ++ ciphertext`.
`decrypt_code` takes the first 16 bytes as the IV, CBC-decrypts the rest,
checks and strips the padding and returns the plaintext.

The script leaves padding and chaining to the `cryptography` library. Both
follow public standards, and the model writes them out as functions on byte
sequences:

- `Pkcs7` — PKCS#7 padding, section 6.3 of RFC 5652, with the unpadder's
  rule that the data it finalises is a positive whole number of blocks.
- `Cbc` — CBC mode, section 6.2 of NIST SP 800-38A, as recursive functions
  over 16-byte blocks.
- `Aes` — AES (FIPS 197) is not modelled inside. A `BlockCipher` value holds
  an encryption and a decryption function on blocks and is a parameter of
  every operation. `Inverts(c)` states the law the round trip needs:
  decryption undoes encryption under every AES key. `IsPermutation(c)` adds
  the converse, which AES also satisfies. It is needed only for the tamper
  lemmas. `PermutationExists` shows that the two laws can be met together.
- `Envelope` — `GenerateKey`, `EncryptCode` and `DecryptCode`, the round trip
  and the consequences of decryption accepting only genuine encryptions.
- `Bytes`, `Wrappers` — bytes (`bv8`), blocks, XOR, and `Option`/`Result`.

Random bytes are parameters. The key is taken from a caller-supplied entropy
sequence, and the IV is an argument of `EncryptCode`. Errors the library
raises while decrypting are values of `Envelope.Error`.

The model follows the code and the library it calls, which settles two edge cases:

- A 16-byte envelope (an IV and no ciphertext) fails in the unpadder, which
  finalises zero bytes. So it is `InvalidPadding`, not a malformed-envelope
  error. A shorter envelope fails when the cipher is constructed with a short
  IV (`InvalidIvSize`). A ciphertext that is not a whole number of blocks
  fails in the decryptor's finalise step (`IncompleteBlock`).
- The script never checks the key length. The library rejects keys that are
  not 16, 24 or 32 bytes long. The model makes a valid AES key a precondition
  (`IsAesKey`), so the round trip holds for every AES key length, the 32-byte
  keys of `generate_key` included.

## Model

| member | source | states |
|---|---|---|
| `Envelope.GenerateKey` | the-stuff.py:12-17 | the key is exactly 32 bytes long, a valid AES key, taken from the random bytes supplied |
| `Pkcs7.Pad` | the-stuff.py:36-37 | the padded length is a positive multiple of 16 and exceeds the input by 1 to 16 bytes; a block-aligned input gets a full extra block; the input is kept as a prefix; every added byte equals the number of bytes added |
| `Pkcs7.Unpad` | the-stuff.py:65-66 | a success returns the whole message whose padding is exactly the input; there is no partial result |
| `Pkcs7.UnpadPad` | the-stuff.py:65-66 | unpadding a padded message returns that message, for every message including the empty one |
| `Pkcs7.UnpadIffPad` | the-stuff.py:65-66 | unpadding returns m if and only if the input is the padding of m |
| `Pkcs7.UnpadRejects` | the-stuff.py:65-66 | a last byte of 0, a last byte above 16, or one of the last p bytes differing from p makes unpadding fail, and no message pads to such input |
| `Cbc.Encrypt` | the-stuff.py:32-40 | CBC encryption preserves length |
| `Cbc.Decrypt` | the-stuff.py:58-62 | CBC decryption preserves length |
| `Cbc.EncryptBlockAt` | the-stuff.py:32-40 | ciphertext block j is the encryption of plaintext block j XOR the previous ciphertext block, with the IV before block 0 |
| `Cbc.DecryptBlockAt` | the-stuff.py:58-62 | plaintext block j is the decryption of ciphertext block j XOR the previous ciphertext block, with the IV before block 0 |
| `Cbc.DecryptEncrypt` | the-stuff.py:32-62 | given the cipher's inverse law, CBC decryption under the same key and IV inverts CBC encryption |
| `Cbc.EncryptDecrypt` | the-stuff.py:58-62 | given a permutation cipher, CBC encryption inverts CBC decryption |
| `Aes.PermutationExists` | the-stuff.py:32 | the laws assumed of the block cipher are consistent: some cipher satisfies both directions |
| `Envelope.EncryptCode` | the-stuff.py:20-41 | the envelope is 16 + 16 * (len / 16 + 1) bytes long and its first 16 bytes are the IV |
| `Envelope.DecryptCode` | the-stuff.py:44-68 | a short envelope is an IV-size error and an unaligned ciphertext is a block error; each holds exactly when its condition holds; a 16-byte envelope is a padding error; a success returns a plaintext 1 to 16 bytes shorter than the ciphertext |
| `Envelope.RoundTrip` | the-stuff.py:20-68 | decrypting the envelope of any plaintext under the same AES key returns that plaintext, for every IV |
| `Envelope.DecryptOnlyAcceptsEncryptions` | the-stuff.py:44-68 | given a permutation cipher, every envelope that decrypts is exactly the encryption of its result under its own IV |
| `Envelope.TamperedCiphertextChangesResult` | the-stuff.py:44-68 | given a permutation cipher, a different envelope with the same IV never decrypts to the same plaintext: it fails or yields other bytes |
| `Envelope.MainBlockRoundTrip` | the-stuff.py:83-110 | the main block's sequence of generating a key, encrypting and decrypting the envelope with that key returns the source text |

## Left out

- AES internals (the-stuff.py:32, 58): AES is a library primitive. The model takes it as a parameter and states its inverse law as a precondition.
- `os.urandom` (the-stuff.py:17, 31): key and IV bytes are parameters. IV freshness, the uniform distribution of keys and a failing entropy source are outside the model.
- Wrong-key detection: it is only probabilistic, because there is no integrity tag. Probabilities cannot be stated here.
- UTF-8 `str.encode()` at the-stuff.py:37 and `bytes.decode()` at the-stuff.py:68: plaintexts are byte sequences. A decoded plaintext that is not valid UTF-8 would raise in the source; the model returns the bytes.
- Key-length errors are raised inside the library, and the script never checks key length itself. The model makes a 16-, 24- or 32-byte key a precondition. The library's 64-byte AES keys are usable only in XTS mode, not CBC.
- The incremental `update`/`finalize` calls on the padder, unpadder, encryptor and decryptor are used once on a whole buffer. Each pair is one function of the whole input.
- The `__main__` block's file writes and reads, printing and `exec` of the decrypted code (the-stuff.py:71-112) are I/O and dynamic execution. The file round trip is taken as the identity in `Envelope.MainBlockRoundTrip`.
- Neurosync-paradigm-architecture.py: directory and JSON output, a static configuration table, forwarding loops to an external model class whose source is not part of this model, and a version-string prompt. None of it has logic of its own to model.
