/**
 * The .NET `PasswordDeriveBytes` derivation: PBKDF1 (section 5.1 of RFC 8018)
 * with Microsoft's counter-prefixed extension past one digest.
 */
module PasswordDeriveBytes {
  import opened Results
  import opened Bytes

  /** The injected hash capability: a digest function and its fixed output size. */
  datatype HashAlgorithm = HashAlgorithm(digest: seq<byte> -> seq<byte>, digestSize: nat)

  /** Every digest has the algorithm's size, and that size is positive. */
  ghost predicate ValidHash(alg: HashAlgorithm) {
    alg.digestSize > 0 && forall m :: |alg.digest(m)| == alg.digestSize
  }

  /** `h` applied `n` times to `x`. */
  function Iterate(h: seq<byte> -> seq<byte>, x: seq<byte>, n: nat): seq<byte> {
    if n == 0 then x else h(Iterate(h, x, n - 1))
  }

  /** Number of times the first digest is re-hashed: `max(0, passwordIterations - 2)`. */
  function RehashCount(passwordIterations: int): nat {
    if passwordIterations > 2 then passwordIterations - 2 else 0
  }

  /** The frozen `lasthash` at the end of the iteration phase. */
  function LastHash(alg: HashAlgorithm, passphrase: seq<byte>, salt: seq<byte>, passwordIterations: int): seq<byte> {
    Iterate(alg.digest, alg.digest(passphrase + salt), RehashCount(passwordIterations))
  }

  /**
   * Block `i` of key material: the base block `H(lasthash)` for `i == 0`,
   * and `H(decimal(i) ++ lasthash)` for the extension blocks.
   */
  function Block(alg: HashAlgorithm, lastHash: seq<byte>, i: nat): seq<byte> {
    if i == 0 then alg.digest(lastHash) else alg.digest(Decimal(i) + lastHash)
  }

  /** The base block followed by extension blocks `1 ..= n`. */
  function KeyStream(alg: HashAlgorithm, lastHash: seq<byte>, n: nat): (r: seq<byte>)
    requires ValidHash(alg)
    ensures |r| == (n + 1) * alg.digestSize
  {
    if n == 0 then Block(alg, lastHash, 0)
    else KeyStream(alg, lastHash, n - 1) + Block(alg, lastHash, n)
  }

  /**
   * The number of extension blocks the `while` loop appends: the least `n`
   * for which `n + 1` digests cover `keySize` bytes.
   */
  function ExtensionBlocks(keySize: nat, digestSize: nat): (n: nat)
    requires digestSize > 0
    ensures keySize <= (n + 1) * digestSize
    ensures n > 0 ==> n * digestSize < keySize
    decreases keySize
  {
    if keySize <= digestSize then 0
    else
      var m := ExtensionBlocks(keySize - digestSize, digestSize);
      assert (m + 2) * digestSize == (m + 1) * digestSize + digestSize;
      assert (m + 1) * digestSize == m * digestSize + digestSize;
      1 + m
  }

  /** Any block count whose digests cover `keySize` bytes is at least `ExtensionBlocks`. */
  lemma {:induction false} ExtensionBlocksLeast(keySize: nat, digestSize: nat, m: nat)
    requires digestSize > 0
    requires keySize <= (m + 1) * digestSize
    ensures ExtensionBlocks(keySize, digestSize) <= m
    decreases keySize
  {
    if keySize > digestSize {
      assert m != 0;
      assert (m + 1) * digestSize == m * digestSize + digestSize;
      ExtensionBlocksLeast(keySize - digestSize, digestSize, m - 1);
    }
  }

  /** The reference definition of the derived key. */
  function DeriveSpec(alg: HashAlgorithm, passphrase: seq<byte>, salt: seq<byte>, passwordIterations: int, keySize: nat)
    : (r: Result<seq<byte>>)
    requires ValidHash(alg)
    ensures r.Failure? <==> passwordIterations <= 0
    ensures r.Failure? ==> r.error == NonPositiveIterations
    ensures r.Success? ==> |r.value| == keySize
  {
    if passwordIterations <= 0 then Failure(NonPositiveIterations)
    else
      var lastHash := LastHash(alg, passphrase, salt, passwordIterations);
      Success(KeyStream(alg, lastHash, ExtensionBlocks(keySize, alg.digestSize))[..keySize])
  }

  /** `ms_password_derived_bytes`, step by step. */
  method DeriveBytes(alg: HashAlgorithm, passphrase: seq<byte>, salt: seq<byte>, passwordIterations: int, keySize: nat)
    returns (r: Result<seq<byte>>)
    requires ValidHash(alg)
    ensures r == DeriveSpec(alg, passphrase, salt, passwordIterations, keySize)
  {
    var iterations := passwordIterations;
    var lastHash: seq<byte>;
    if iterations > 0 {
      lastHash := alg.digest(passphrase + salt);
      iterations := iterations - 1;
    } else {
      return Failure(NonPositiveIterations);
    }
    ghost var first := lastHash;
    var i := 0;
    while i < iterations - 1
      invariant 0 <= i <= RehashCount(passwordIterations)
      invariant iterations == passwordIterations - 1
      invariant lastHash == Iterate(alg.digest, first, i)
    {
      lastHash := alg.digest(lastHash);
      i := i + 1;
    }
    var derivedKey := alg.digest(lastHash);
    var counter := 1;
    ghost var blocks := ExtensionBlocks(keySize, alg.digestSize);
    while |derivedKey| < keySize
      invariant 1 <= counter <= blocks + 1
      invariant derivedKey == KeyStream(alg, lastHash, counter - 1)
      decreases keySize - |derivedKey|
    {
      assert |derivedKey| == counter * alg.digestSize;
      assert counter - 1 != blocks;
      derivedKey := derivedKey + alg.digest(Decimal(counter) + lastHash);
      counter := counter + 1;
    }
    assert |derivedKey| == counter * alg.digestSize;
    ExtensionBlocksLeast(keySize, alg.digestSize, counter - 1);
    return Success(PySliceTo(derivedKey, keySize));
  }

  // Properties of the derivation

  /** Hashing first and then iterating `n` times is iterating `n + 1` times. */
  lemma {:induction false} IterateShift(h: seq<byte> -> seq<byte>, x: seq<byte>, n: nat)
    ensures Iterate(h, h(x), n) == Iterate(h, x, n + 1)
  {
    if n > 0 {
      IterateShift(h, x, n - 1);
    }
  }

  /**
   * The base block is the hash iterated `passwordIterations` times on
   * `passphrase ++ salt`, except that an iteration count of 1 still hashes twice.
   */
  lemma BaseBlockIsIteratedHash(alg: HashAlgorithm, passphrase: seq<byte>, salt: seq<byte>, passwordIterations: int)
    requires passwordIterations > 0
    ensures Block(alg, LastHash(alg, passphrase, salt, passwordIterations), 0)
         == Iterate(alg.digest, passphrase + salt, if passwordIterations >= 2 then passwordIterations else 2)
  {
    var n := RehashCount(passwordIterations);
    IterateShift(alg.digest, passphrase + salt, n);
    assert Iterate(alg.digest, passphrase + salt, n + 2)
        == alg.digest(Iterate(alg.digest, passphrase + salt, n + 1));
  }

  /** Iteration counts 1 and 2 derive the same key. */
  lemma IterationsOneAndTwoAgree(alg: HashAlgorithm, passphrase: seq<byte>, salt: seq<byte>, keySize: nat)
    requires ValidHash(alg)
    ensures DeriveSpec(alg, passphrase, salt, 1, keySize) == DeriveSpec(alg, passphrase, salt, 2, keySize)
  {
  }

  /** A key no longer than one digest is a prefix of the base block `H(lasthash)`. */
  lemma SmallKeyIsBasePrefix(alg: HashAlgorithm, passphrase: seq<byte>, salt: seq<byte>, passwordIterations: int, keySize: nat)
    requires ValidHash(alg)
    requires passwordIterations > 0 && keySize <= alg.digestSize
    ensures DeriveSpec(alg, passphrase, salt, passwordIterations, keySize)
         == Success(Block(alg, LastHash(alg, passphrase, salt, passwordIterations), 0)[..keySize])
  {
  }

  /** Block `i` of the key stream sits at bytes `i * D .. (i + 1) * D`. */
  lemma {:induction false} KeyStreamBlock(alg: HashAlgorithm, lastHash: seq<byte>, n: nat, i: nat)
    requires ValidHash(alg)
    requires i <= n
    ensures (i + 1) * alg.digestSize <= |KeyStream(alg, lastHash, n)|
    ensures KeyStream(alg, lastHash, n)[i * alg.digestSize .. (i + 1) * alg.digestSize] == Block(alg, lastHash, i)
  {
    var d := alg.digestSize;
    if i < n {
      KeyStreamBlock(alg, lastHash, n - 1, i);
      var prev := KeyStream(alg, lastHash, n - 1);
      assert KeyStream(alg, lastHash, n) == prev + Block(alg, lastHash, n);
      assert (i + 1) * d <= |prev|;
      assert (prev + Block(alg, lastHash, n))[i * d .. (i + 1) * d] == prev[i * d .. (i + 1) * d];
    } else if n > 0 {
      var prev := KeyStream(alg, lastHash, n - 1);
      assert |prev| == n * d;
      assert (n + 1) * d == n * d + d;
    }
  }

  /** A shorter key stream is a prefix of a longer one. */
  lemma {:induction false} KeyStreamPrefix(alg: HashAlgorithm, lastHash: seq<byte>, m: nat, n: nat)
    requires ValidHash(alg)
    requires m <= n
    ensures KeyStream(alg, lastHash, m) <= KeyStream(alg, lastHash, n)
  {
    if m < n {
      KeyStreamPrefix(alg, lastHash, m, n - 1);
    }
  }

  /** A longer key never needs fewer extension blocks. */
  lemma ExtensionBlocksMonotone(small: nat, large: nat, digestSize: nat)
    requires digestSize > 0
    requires small <= large
    ensures ExtensionBlocks(small, digestSize) <= ExtensionBlocks(large, digestSize)
  {
    ExtensionBlocksLeast(small, digestSize, ExtensionBlocks(large, digestSize));
  }

  /** The extension loop appends `max(0, ceil(keySize / D) - 1)` blocks. */
  lemma ExtensionBlocksIsCeiling(keySize: nat, digestSize: nat)
    requires digestSize > 0
    ensures ExtensionBlocks(keySize, digestSize)
         == if keySize == 0 then 0 else (keySize + digestSize - 1) / digestSize - 1
  {
    var n := ExtensionBlocks(keySize, digestSize);
    if keySize > 0 {
      var q := (keySize + digestSize - 1) / digestSize;
      var rem := (keySize + digestSize - 1) % digestSize;
      assert keySize + digestSize - 1 == q * digestSize + rem;
      assert q >= 1;
      ExtensionBlocksLeast(keySize, digestSize, q - 1);
      if n < q - 1 {
        MulMonotone(n + 1, q - 1, digestSize);
      }
    }
  }

  lemma MulMonotone(a: nat, b: nat, c: nat)
    requires a <= b
    ensures a * c <= b * c
  {
  }

  /** With everything else equal, the key for a smaller size is a prefix of the key for a larger one. */
  lemma DerivePrefix(alg: HashAlgorithm, passphrase: seq<byte>, salt: seq<byte>, passwordIterations: int, small: nat, large: nat)
    requires ValidHash(alg)
    requires passwordIterations > 0 && small <= large
    ensures DeriveSpec(alg, passphrase, salt, passwordIterations, small).value
         <= DeriveSpec(alg, passphrase, salt, passwordIterations, large).value
  {
    var lastHash := LastHash(alg, passphrase, salt, passwordIterations);
    var m := ExtensionBlocks(small, alg.digestSize);
    var n := ExtensionBlocks(large, alg.digestSize);
    ExtensionBlocksMonotone(small, large, alg.digestSize);
    KeyStreamPrefix(alg, lastHash, m, n);
  }

  /**
   * Byte `r` of block `i` of a derived key is byte `r` of `Block(i)`: the base
   * block `H(lasthash)` first, then `H(decimal(i) ++ lasthash)` for the
   * counters `i = 1, 2, ...`, all over the same frozen `lasthash`.
   */
  lemma DerivedKeyAt(alg: HashAlgorithm, passphrase: seq<byte>, salt: seq<byte>, passwordIterations: int, keySize: nat,
                     i: nat, r: nat)
    requires ValidHash(alg)
    requires passwordIterations > 0 && r < alg.digestSize && i * alg.digestSize + r < keySize
    ensures DeriveSpec(alg, passphrase, salt, passwordIterations, keySize).value[i * alg.digestSize + r]
         == Block(alg, LastHash(alg, passphrase, salt, passwordIterations), i)[r]
  {
    var d := alg.digestSize;
    var lastHash := LastHash(alg, passphrase, salt, passwordIterations);
    var n := ExtensionBlocks(keySize, d);
    if i > n {
      MulMonotone(n + 1, i, d);
    }
    KeyStreamBlock(alg, lastHash, n, i);
    var ks := KeyStream(alg, lastHash, n);
    assert ks[i * d .. (i + 1) * d][r] == ks[i * d + r];
  }

  /** Distinct counters feed the hash distinct inputs, whatever `lasthash` is. */
  lemma CounterInputsDistinct(lastHash: seq<byte>, i: nat, k: nat)
    requires Decimal(i) + lastHash == Decimal(k) + lastHash
    ensures i == k
  {
    var a, b := Decimal(i), Decimal(k);
    assert |a| == |b|;
    assert a == (a + lastHash)[..|a|];
    assert b == (b + lastHash)[..|b|];
    DecimalInjective(i, k);
  }
}
