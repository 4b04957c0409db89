/** `ms_decrypt_aes_pbkdf1`: derive the key, then decrypt with it. */
module MsCrypt {
  import opened Results
  import opened Bytes
  import opened PasswordDeriveBytes
  import opened AesCbc

  /**
   * Failure of the derivation is returned before anything is decrypted;
   * otherwise the result is the unpadded decryption under the derived key.
   */
  method DecryptAesPbkdf1(cbc: CbcDecryption, data: seq<byte>, passphrase: seq<byte>, salt: seq<byte>,
                          alg: HashAlgorithm, passwordIterations: int, keySize: nat, initVector: seq<byte>)
    returns (r: Result<seq<byte>>)
    requires ValidHash(alg)
    ensures passwordIterations <= 0 ==> r == Failure(NonPositiveIterations)
    ensures passwordIterations > 0 ==>
              r == DecryptAesCbc(cbc, data, DeriveSpec(alg, passphrase, salt, passwordIterations, keySize).value, initVector)
  {
    var key := DeriveBytes(alg, passphrase, salt, passwordIterations, keySize);
    if key.Failure? {
      return Failure(key.error);
    }
    r := DecryptAesCbc(cbc, data, key.value, initVector);
  }
}
