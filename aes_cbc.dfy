/**
 * `ms_decrypt_aes_cbc`: CBC decryption followed by removal of trailing
 * padding as PKCS #7 (section 6.3 of RFC 5652) lays it out. The block
 * cipher and the chaining are an injected function; only the unpadding is
 * modelled.
 */
module AesCbc {
  import opened Results
  import opened Bytes

  const BlockSize: nat := 16

  /** AES in CBC mode as a function of key, initialization vector and ciphertext. */
  type CbcDecryption = (seq<byte>, seq<byte>, seq<byte>) -> seq<byte>

  /**
   * Reads the last byte `n` and returns `decrypted[:-n]` with Python's slice
   * rules; the padding bytes themselves are never checked.
   */
  function Unpad(decrypted: seq<byte>): (r: Result<seq<byte>>)
    ensures r.Failure? <==> decrypted == []
    ensures r.Failure? ==> r.error == EmptyDecryptedData
    ensures decrypted != [] && 0 < decrypted[|decrypted| - 1] as int < |decrypted| ==>
              r == Success(decrypted[..|decrypted| - decrypted[|decrypted| - 1] as int])
    ensures decrypted != [] && (decrypted[|decrypted| - 1] == 0 || decrypted[|decrypted| - 1] as int >= |decrypted|) ==>
              r == Success([])
  {
    if decrypted == [] then Failure(EmptyDecryptedData)
    else
      var paddingLength := decrypted[|decrypted| - 1];
      Success(PySliceTo(decrypted, -(paddingLength as int)))
  }

  /** The padding the legacy encryptor appends: `k` copies of `k`, with `k = 16 - |p| % 16`. */
  function Pkcs7Pad(plain: seq<byte>): (r: seq<byte>)
    ensures |r| % BlockSize == 0
    ensures |plain| < |r| <= |plain| + BlockSize
    ensures r[..|plain|] == plain
    ensures forall i :: |plain| <= i < |r| ==> r[i] as int == |r| - |plain|
  {
    var k := BlockSize - |plain| % BlockSize;
    plain + seq(k, _ => k as byte)
  }

  /** Unpadding undoes the padding, including a whole block of padding on an empty plaintext. */
  lemma UnpadRoundTrip(plain: seq<byte>)
    ensures Unpad(Pkcs7Pad(plain)) == Success(plain)
  {
    var padded := Pkcs7Pad(plain);
    assert padded[|padded| - 1] as int == |padded| - |plain|;
  }

  /** Only the last byte and the bytes kept are read: the rest of the removed region does not matter. */
  lemma UnpadIgnoresPaddingContent(d1: seq<byte>, d2: seq<byte>)
    requires |d1| == |d2| > 0 && d1[|d1| - 1] == d2[|d2| - 1]
    requires var n := d1[|d1| - 1] as int; 0 < n < |d1| ==> d1[..|d1| - n] == d2[..|d2| - n]
    ensures Unpad(d1) == Unpad(d2)
  {
  }

  /** Decrypts, then unpads. */
  function DecryptAesCbc(cbc: CbcDecryption, data: seq<byte>, key: seq<byte>, initVector: seq<byte>): (r: Result<seq<byte>>)
    ensures r.Failure? <==> cbc(key, initVector, data) == []
    ensures r.Success? ==> r.value <= cbc(key, initVector, data)
  {
    var decryptedBytes := cbc(key, initVector, data);
    Unpad(decryptedBytes)
  }

  /** A decryption that yields a padded plaintext returns that plaintext. */
  lemma DecryptRoundTrip(cbc: CbcDecryption, data: seq<byte>, key: seq<byte>, initVector: seq<byte>, plain: seq<byte>)
    requires cbc(key, initVector, data) == Pkcs7Pad(plain)
    ensures DecryptAesCbc(cbc, data, key, initVector) == Success(plain)
  {
    UnpadRoundTrip(plain);
  }
}
