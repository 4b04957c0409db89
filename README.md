# mscrypt in Dafny

A model of `mscrypt.py`, a reimplementation of two legacy .NET routines:

- `PasswordDeriveBytes` key derivation. This is PBKDF1 (section 5.1 of RFC 8018) with Microsoft's extension for keys longer than one digest. The first digest is taken over `passphrase ++ salt`. It is re-hashed `max(0, iterations - 2)` times to give a frozen `lasthash`. The key is `H(lasthash)` followed by `H(decimal(counter) ++ lasthash)` for `counter = 1, 2, …`, truncated to `key_size`.
- AES-CBC decryption followed by unpadding. The last byte `n` is read and `decrypted[:-n]` is returned, with Python's slice rules and no check of the padding bytes. Padding is PKCS #7, section 6.3 of RFC 5652.

Modules:

- `Results`: the two errors and a `Result` type.
  - `NonPositiveIterations` is the `ValueError`.
  - `EmptyDecryptedData` is the `IndexError` raised by `decrypted_bytes[-1]` on an empty decryption.
- `Bytes`: the byte type, the ASCII decimal rendering of the counter, and Python's `s[:stop]`.
- `PasswordDeriveBytes`: the derivation.
  - The method `DeriveBytes` keeps the source's two loops.
  - It is proved equal to the reference function `DeriveSpec`.
  - Lemmas state the shape of the output.
- `AesCbc`: unpadding and `ms_decrypt_aes_cbc`. CBC decryption is an injected function of key, initialization vector and ciphertext.
- `MsCrypt`: the `ms_decrypt_aes_pbkdf1` composition.

The hash algorithm is injected as `HashAlgorithm(digest, digestSize)`. `ValidHash` requires that every digest has length `digestSize` and that `digestSize > 0`. The extension loop terminates only because `digestSize > 0`.

Two behaviours of the code depart from the standards it follows:

- PBKDF1 (section 5.1 of RFC 8018) with an iteration count of 1 hashes once. This code re-hashes `max(0, iterations - 2)` times (`RehashCount`), so a count of 1 hashes twice on the way to the base block, and counts 1 and 2 give the same key.
- PKCS #7 (section 6.3 of RFC 5652) treats a padding byte of 0, or one larger than the block size, as invalid. This code does not check it: `n == 0` or `n >= len` returns the empty string (`Unpad`).

## Model

| member | source | states |
|---|---|---|
| `PasswordDeriveBytes.DeriveBytes` | mscrypt.py:7-23 | The imperative derivation (decrement, re-hash loop, counter-extension loop, slice) returns exactly `DeriveSpec` on every input, including the error for a non-positive iteration count. |
| `PasswordDeriveBytes.DeriveSpec` | mscrypt.py:7-23 | Fails, with `NonPositiveIterations`, exactly when the iteration count is below 1. On success the key has exactly `keySize` bytes. |
| `PasswordDeriveBytes.Iterate` | mscrypt.py:15-16 | Bare definition, no contract: `h` applied `n` times. Pinned down by `IterateShift` and `BaseBlockIsIteratedHash`. |
| `PasswordDeriveBytes.RehashCount` | mscrypt.py:11-15 | Bare definition, no contract: `range(iterations - 1)` after the decrement, that is `max(0, passwordIterations - 2)` re-hashes. Pinned down by `BaseBlockIsIteratedHash` and `IterationsOneAndTwoAgree`. |
| `PasswordDeriveBytes.LastHash` | mscrypt.py:10-16 | Bare definition, no contract: the frozen `lasthash`, the first digest of `passphrase ++ salt` re-hashed `RehashCount` times. Pinned down by `BaseBlockIsIteratedHash`. |
| `PasswordDeriveBytes.Block` | mscrypt.py:18-21 | Bare definition, no contract: block 0 is `H(lasthash)` and block `i >= 1` is `H(decimal(i) ++ lasthash)`. Its place in the key is fixed by `KeyStreamBlock` and `DerivedKeyAt`. |
| `PasswordDeriveBytes.KeyStream` | mscrypt.py:18-22 | The base block followed by `n` extension blocks is `(n + 1) * D` bytes long. |
| `PasswordDeriveBytes.ExtensionBlocks` | mscrypt.py:19-22 | The number of appended blocks `n` is the least with `keySize <= (n + 1) * D`: `n + 1` digests cover the key, and `n` digests do not when `n > 0`. |
| `PasswordDeriveBytes.ExtensionBlocksLeast` | mscrypt.py:20 | Any block count whose digests cover `keySize` is at least `ExtensionBlocks`, so the loop stops at the first covering length. |
| `PasswordDeriveBytes.ExtensionBlocksIsCeiling` | mscrypt.py:19-22 | The loop appends `max(0, ceil(keySize / D) - 1)` blocks. |
| `PasswordDeriveBytes.ExtensionBlocksMonotone` | mscrypt.py:20 | A larger key size never appends fewer blocks. |
| `PasswordDeriveBytes.IterateShift` | mscrypt.py:15-16 | Hashing once and then iterating `n` times equals iterating `n + 1` times. |
| `PasswordDeriveBytes.BaseBlockIsIteratedHash` | mscrypt.py:10-18 | The base block is `H` applied `passwordIterations` times to `passphrase ++ salt` when the count is at least 2. A count of 1 still applies `H` twice. |
| `PasswordDeriveBytes.IterationsOneAndTwoAgree` | mscrypt.py:11-15 | Iteration counts 1 and 2 derive identical keys, for every key size. |
| `PasswordDeriveBytes.SmallKeyIsBasePrefix` | mscrypt.py:18-23 | When `keySize <= D`, the key is the first `keySize` bytes of `H(lasthash)`. |
| `PasswordDeriveBytes.KeyStreamBlock` | mscrypt.py:18-22 | Bytes `i*D .. (i+1)*D` of the key stream are exactly block `i`: `H(lasthash)` for `i = 0`, `H(decimal(i) ++ lasthash)` otherwise. |
| `PasswordDeriveBytes.KeyStreamPrefix` | mscrypt.py:20-22 | A key stream with fewer extension blocks is a prefix of one with more. |
| `PasswordDeriveBytes.DerivePrefix` | mscrypt.py:18-23 | With all other inputs equal, the key for a smaller size is a prefix of the key for a larger size. |
| `PasswordDeriveBytes.DerivedKeyAt` | mscrypt.py:18-23 | Byte `i*D + r` of a derived key is byte `r` of block `i`. Every extension block hashes the counter `i` before the same frozen `lasthash`, never the accumulator or the base block. |
| `PasswordDeriveBytes.CounterInputsDistinct` | mscrypt.py:21 | Distinct counters give the hash distinct inputs `decimal(i) ++ lasthash`. |
| `Bytes.Decimal` | mscrypt.py:21 | `str(counter).encode("ascii")` is a nonempty string of ASCII digits. It has no leading zero and is one digit exactly for values below 10. |
| `Bytes.DecimalRoundTrip` | mscrypt.py:21 | Parsing the decimal rendering gives back the counter. |
| `Bytes.DecimalInjective` | mscrypt.py:21 | Equal renderings come from equal counters. |
| `Bytes.PySliceTo` | mscrypt.py:23 | Python's `s[:stop]`. A stop in `0 ..= len` keeps that many bytes, and a larger stop keeps all of them. A negative stop counts from the end. A stop before the start gives the empty string. |
| `AesCbc.Unpad` | mscrypt.py:31-32 | Empty input is the `EmptyDecryptedData` error. With last byte `n`, `0 < n < len` gives `d[..len - n]`. `n == 0` gives the empty string (`[:-0]`), and so does `n >= len`. |
| `AesCbc.UnpadIgnoresPaddingContent` | mscrypt.py:31-32 | Inputs that agree on the last byte and on the bytes kept unpad to the same result, whatever the rest of the removed region holds. |
| `AesCbc.Pkcs7Pad` | mscrypt.py:25 | PKCS #7 padding appends `k` bytes equal to `k`, with `1 <= k <= 16`. The padded length is a multiple of 16, and the plaintext is its prefix. |
| `AesCbc.UnpadRoundTrip` | mscrypt.py:31-32 | `Unpad(p ++ [k]*k) == p` with `k = 16 - |p| % 16`. A single block of padding on an empty `p` gives the empty string. |
| `AesCbc.DecryptAesCbc` | mscrypt.py:28-32 | Fails exactly when the decryption is empty. On success the plaintext is a prefix of the decrypted bytes. |
| `AesCbc.DecryptRoundTrip` | mscrypt.py:28-32 | A decryption that yields a PKCS #7-padded plaintext returns that plaintext. |
| `MsCrypt.DecryptAesPbkdf1` | mscrypt.py:34-36 | A non-positive iteration count fails with `NonPositiveIterations` and nothing is decrypted. Otherwise the result is `Unpad(decrypt(data, DeriveSpec(...)))`. |

## Left out

- AES (FIPS 197) and CBC chaining (section 6.2 of NIST SP 800-38A) come from the PyCryptodome library. They are the injected function `CbcDecryption`, and the library's own errors for a bad key, IV or data length are not modelled.
- The hash algorithm's internals are left out. It is an injected function with a fixed, positive digest size.
- String encoding is left out. `passphrase.encode("UTF-8")` and `salt_value.encode("ascii")`, including the error a non-ASCII salt raises, are replaced by taking both as byte strings.
- A negative `key_size` is excluded by the type `nat`. Python would silently cut the key short at `derived_key[:key_size]`.
- The default argument `init_vector = b'\x00'*16` is not modelled. Callers always pass the vector explicitly.
- The number of hash calls is not counted. `BaseBlockIsIteratedHash` says how many times the hash is applied along the chain to the base block.
