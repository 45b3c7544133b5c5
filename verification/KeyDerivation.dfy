/** The SSLv3 key derivation of section 6.2.2 of RFC 6101, as the program loops over it. */
module KeyDerivation {
  import opened Base

  const DIGEST := 16
  const MAX_BYTES := 3056

  /** Block i of the output: its salt is i + 1 copies of the letter i places after "A". */
  function PrfBlock(md5: Md5, sha1: Sha1, secret: Bytes, a: Bytes, b: Bytes, i: nat): (d: Bytes)
    requires 0x41 + i < 256
    ensures |d| == DIGEST
  {
    md5.digest(secret + sha1.digest(Repeat((0x41 + i) as byte, i + 1) + secret + a + b))
  }

  /** Byte k of the output is byte k % 16 of block k / 16; no other byte depends on the request. */
  function Prf(md5: Md5, sha1: Sha1, secret: Bytes, a: Bytes, b: Bytes, n: nat): (out: Bytes)
    requires n <= MAX_BYTES
    ensures |out| == n
  {
    seq(n, k requires 0 <= k < n => PrfBlock(md5, sha1, secret, a, b, k / DIGEST)[k % DIGEST])
  }

  /** The loop fails exactly when it would need a salt letter past the last byte value. */
  method ComputePrf(md5: Md5, sha1: Sha1, secret: Bytes, a: Bytes, b: Bytes, nbytes: nat) returns (r: Result<Bytes>)
    ensures r.Ok? <==> nbytes <= MAX_BYTES
    ensures r.Ok? ==> r.value == Prf(md5, sha1, secret, a, b, nbytes)
  {
    var out: Bytes, i := [], 0;
    while |out| < nbytes
      invariant 0 <= i <= 191 && |out| == DIGEST * i
      invariant |out| < nbytes + DIGEST
      invariant out == Prf(md5, sha1, secret, a, b, DIGEST * i)
      decreases nbytes + DIGEST - |out|
    {
      if 0x41 + i > 255 {
        return Err("byte must be in range(0, 256)");
      }
      var salt := Repeat((0x41 + i) as byte, i + 1);
      ghost var before := out;
      out := out + md5.digest(secret + sha1.digest(salt + secret + a + b));
      PrfExtends(md5, sha1, secret, a, b, i);
      i := i + 1;
    }
    PrfIsPrefix(md5, sha1, secret, a, b, nbytes, DIGEST * i);
    return Ok(out[..nbytes]);
  }

  lemma PrfExtends(md5: Md5, sha1: Sha1, secret: Bytes, a: Bytes, b: Bytes, i: nat)
    requires i < 191
    ensures Prf(md5, sha1, secret, a, b, DIGEST * (i + 1)) ==
            Prf(md5, sha1, secret, a, b, DIGEST * i) + PrfBlock(md5, sha1, secret, a, b, i)
  {
    var whole := Prf(md5, sha1, secret, a, b, DIGEST * (i + 1));
    forall k | DIGEST * i <= k < DIGEST * (i + 1)
      ensures whole[k] == PrfBlock(md5, sha1, secret, a, b, i)[k - DIGEST * i]
    {
      assert k / DIGEST == i && k % DIGEST == k - DIGEST * i;
    }
  }

  /** A shorter request is a prefix of a longer one. */
  lemma PrfIsPrefix(md5: Md5, sha1: Sha1, secret: Bytes, a: Bytes, b: Bytes, m: nat, n: nat)
    requires m <= n <= MAX_BYTES
    ensures Prf(md5, sha1, secret, a, b, m) == Prf(md5, sha1, secret, a, b, n)[..m]
  {
  }

  /** The salts of section 6.2.2 of RFC 6101, "A", "BB", "CCC" and so on. */
  const SALTS: seq<Bytes> := [
    [65], [66, 66], [67, 67, 67], [68, 68, 68, 68], [69, 69, 69, 69, 69], [70, 70, 70, 70, 70, 70],
    [71, 71, 71, 71, 71, 71, 71], [72, 72, 72, 72, 72, 72, 72, 72], [73, 73, 73, 73, 73, 73, 73, 73, 73]
  ]

  /** Section 6.2.2 of RFC 6101: MD5(secret + SHA1(salt + secret + seed)), one block after the other. */
  function Expanded(md5: Md5, sha1: Sha1, secret: Bytes, seed: Bytes, blocks: nat): (k: Bytes)
    requires blocks <= 9
    ensures |k| == 16 * blocks
  {
    if blocks == 0 then []
    else
      Expanded(md5, sha1, secret, seed, blocks - 1)
      + md5.digest(secret + sha1.digest(SALTS[blocks - 1] + secret + seed))
  }

  lemma SaltsRepeat(i: nat)
    requires i < 9
    ensures |SALTS| == 9 && SALTS[i] == Repeat((0x41 + i) as byte, i + 1)
  {
  }

  /** What the loop computes is the standard's expansion, with the two randoms in order as its seed. */
  lemma {:induction false} PrfIsStandard(md5: Md5, sha1: Sha1, secret: Bytes, a: Bytes, b: Bytes, blocks: nat)
    requires blocks <= 9
    ensures Prf(md5, sha1, secret, a, b, DIGEST * blocks) == Expanded(md5, sha1, secret, a + b, blocks)
  {
    if blocks > 0 {
      var salt := SALTS[blocks - 1];
      PrfIsStandard(md5, sha1, secret, a, b, blocks - 1);
      PrfExtends(md5, sha1, secret, a, b, blocks - 1);
      SaltsRepeat(blocks - 1);
      assert salt + secret + a + b == salt + secret + (a + b);
    }
  }

  /** The 48-byte master secret is the blocks of the salts "A", "BB" and "CCC". */
  lemma MasterSecretBlocks(md5: Md5, sha1: Sha1, secret: Bytes, a: Bytes, b: Bytes)
    ensures Prf(md5, sha1, secret, a, b, 48) ==
            md5.digest(secret + sha1.digest([0x41] + secret + a + b))
            + md5.digest(secret + sha1.digest([0x42, 0x42] + secret + a + b))
            + md5.digest(secret + sha1.digest([0x43, 0x43, 0x43] + secret + a + b))
  {
    assert Prf(md5, sha1, secret, a, b, DIGEST * 0) == [];
    PrfExtends(md5, sha1, secret, a, b, 0);
    PrfExtends(md5, sha1, secret, a, b, 1);
    PrfExtends(md5, sha1, secret, a, b, 2);
    assert Repeat(0x41, 1) == [0x41] && Repeat(0x42, 2) == [0x42, 0x42] && Repeat(0x43, 3) == [0x43, 0x43, 0x43];
  }
}
