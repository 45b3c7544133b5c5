/** Cipher block chaining over an arbitrary invertible 16-byte block cipher. */
module Cbc {
  import opened Base

  const BLOCK := 16

  /** Bitwise exclusive or of the low `bits` bits. */
  function XorBits(a: nat, b: nat, bits: nat): nat {
    if bits == 0 then 0 else (a + b) % 2 + 2 * XorBits(a / 2, b / 2, bits - 1)
  }

  function Power2(n: nat): nat { if n == 0 then 1 else 2 * Power2(n - 1) }

  lemma Halves(p: nat, y: nat)
    requires p < 2
    ensures (p + 2 * y) / 2 == y && (p + 2 * y) % 2 == p
  {
  }

  lemma ParityCancels(a: nat, b: nat, x: nat)
    requires x % 2 == (a + b) % 2
    ensures (x + b) % 2 == a % 2
  {
  }

  lemma {:induction false} XorBitsCancels(a: nat, b: nat, bits: nat)
    requires a < Power2(bits)
    ensures XorBits(a, b, bits) < Power2(bits)
    ensures XorBits(XorBits(a, b, bits), b, bits) == a
  {
    if bits > 0 {
      var p, y := (a + b) % 2, XorBits(a / 2, b / 2, bits - 1);
      XorBitsCancels(a / 2, b / 2, bits - 1);
      Halves(p, y);
      ParityCancels(a, b, p + 2 * y);
      assert XorBits(p + 2 * y, b, bits) == (p + 2 * y + b) % 2 + 2 * XorBits(y, b / 2, bits - 1);
    }
  }

  function XorByte(a: byte, b: byte): byte {
    assert Power2(8) == 256 by {
      assert Power2(4) == 16;
      assert Power2(6) == 4 * Power2(4);
    }
    XorBitsCancels(a as nat, b as nat, 8);
    XorBits(a as nat, b as nat, 8) as byte
  }

  lemma XorByteCancels(a: byte, b: byte)
    ensures XorByte(XorByte(a, b), b) == a
  {
    assert Power2(4) == 16;
    assert Power2(8) == 16 * Power2(4);
    XorBitsCancels(a as nat, b as nat, 8);
  }

  function Bit(n: nat, i: nat): nat { if i == 0 then n % 2 else Bit(n / 2, i - 1) }

  lemma {:induction false} XorBitsAt(a: nat, b: nat, bits: nat, i: nat)
    requires i < bits
    ensures Bit(XorBits(a, b, bits), i) == if Bit(a, i) == Bit(b, i) then 0 else 1
  {
    var p, y := (a + b) % 2, XorBits(a / 2, b / 2, bits - 1);
    Halves(p, y);
    if i > 0 { XorBitsAt(a / 2, b / 2, bits - 1, i - 1); }
  }

  /** Exclusive or: a bit of the result is set exactly where the operands differ. */
  lemma XorByteBits(a: byte, b: byte, i: nat)
    requires i < 8
    ensures Bit(XorByte(a, b) as nat, i) == if Bit(a as nat, i) == Bit(b as nat, i) then 0 else 1
  {
    XorBitsAt(a as nat, b as nat, 8, i);
  }

  function Xor(a: Bytes, b: Bytes): (c: Bytes)
    requires |a| == |b|
    ensures |c| == |a|
  {
    seq(|a|, k requires 0 <= k < |a| => XorByte(a[k], b[k]))
  }

  lemma XorCancels(a: Bytes, b: Bytes)
    requires |a| == |b|
    ensures Xor(Xor(a, b), b) == a
  {
    forall k | 0 <= k < |a| ensures Xor(Xor(a, b), b)[k] == a[k] {
      XorByteCancels(a[k], b[k]);
    }
  }

  datatype CipherPair = CipherPair(enc: (Bytes, Bytes) -> Bytes, dec: (Bytes, Bytes) -> Bytes)

  /** Under every key, `dec` undoes `enc` on blocks and both keep the block size. */
  ghost predicate Inverts(c: CipherPair) {
    && (forall key: Bytes, block: Bytes | |block| == BLOCK :: |c.enc(key, block)| == BLOCK)
    && (forall key: Bytes, block: Bytes | |block| == BLOCK :: c.dec(key, c.enc(key, block)) == block)
    && (forall key: Bytes, block: Bytes | |block| == BLOCK :: |c.dec(key, block)| == BLOCK)
  }

  type BlockCipher = c: CipherPair | Inverts(c)
    witness CipherPair((key: Bytes, block: Bytes) => block, (key: Bytes, block: Bytes) => block)

  lemma WholeBlocks(m: nat, n: nat)
    requires m % BLOCK == 0 && n % BLOCK == 0
    ensures (m + n) % BLOCK == 0
  {
    assert m + n == BLOCK * (m / BLOCK + n / BLOCK);
  }

  function Encrypt(c: BlockCipher, key: Bytes, iv: Bytes, plain: Bytes): (cipher: Bytes)
    requires |iv| == BLOCK && |plain| % BLOCK == 0
    ensures |cipher| == |plain|
    decreases |plain|
  {
    if plain == [] then []
    else
      var head := c.enc(key, Xor(plain[..BLOCK], iv));
      head + Encrypt(c, key, head, plain[BLOCK..])
  }

  function Decrypt(c: BlockCipher, key: Bytes, iv: Bytes, cipher: Bytes): (plain: Bytes)
    requires |iv| == BLOCK && |cipher| % BLOCK == 0
    ensures |plain| == |cipher|
    decreases |cipher|
  {
    if cipher == [] then []
    else
      var head := cipher[..BLOCK];
      assert |c.dec(key, head)| == BLOCK;
      Xor(c.dec(key, head), iv) + Decrypt(c, key, head, cipher[BLOCK..])
  }

  /** The IV the next message starts from: the last ciphertext block. */
  function NextIv(iv: Bytes, cipher: Bytes): (next: Bytes)
    requires |iv| == BLOCK && |cipher| % BLOCK == 0
    ensures |next| == BLOCK
  {
    if cipher == [] then iv else cipher[|cipher| - BLOCK..]
  }

  lemma {:induction false} DecryptInvertsEncrypt(c: BlockCipher, key: Bytes, iv: Bytes, plain: Bytes)
    requires |iv| == BLOCK && |plain| % BLOCK == 0
    ensures Decrypt(c, key, iv, Encrypt(c, key, iv, plain)) == plain
    decreases |plain|
  {
    if plain != [] {
      var head := c.enc(key, Xor(plain[..BLOCK], iv));
      var cipher := Encrypt(c, key, iv, plain);
      assert cipher[..BLOCK] == head && cipher[BLOCK..] == Encrypt(c, key, head, plain[BLOCK..]);
      assert c.dec(key, head) == Xor(plain[..BLOCK], iv);
      XorCancels(plain[..BLOCK], iv);
      DecryptInvertsEncrypt(c, key, head, plain[BLOCK..]);
      assert plain == plain[..BLOCK] + plain[BLOCK..];
    }
  }

  lemma NextIvOfTail(iv: Bytes, head: Bytes, tail: Bytes)
    requires |iv| == BLOCK && |head| == BLOCK && |tail| % BLOCK == 0
    ensures NextIv(iv, head + tail) == NextIv(head, tail)
  {
    if tail == [] { assert head + tail == head; }
  }

  lemma EncryptFirst(c: BlockCipher, key: Bytes, iv: Bytes, a: Bytes, b: Bytes)
    requires |iv| == BLOCK && a != [] && |a| % BLOCK == 0 && |b| % BLOCK == 0
    ensures var head := c.enc(key, Xor(a[..BLOCK], iv));
            && |head| == BLOCK
            && Encrypt(c, key, iv, a) == head + Encrypt(c, key, head, a[BLOCK..])
            && Encrypt(c, key, iv, a + b) == head + Encrypt(c, key, head, a[BLOCK..] + b)
  {
    assert (a + b)[..BLOCK] == a[..BLOCK] && (a + b)[BLOCK..] == a[BLOCK..] + b;
  }

  /** Encrypting in two goes, the second from the last block of the first, is encrypting in one. */
  lemma {:induction false} EncryptChains(c: BlockCipher, key: Bytes, iv: Bytes, a: Bytes, b: Bytes)
    requires |iv| == BLOCK && |a| % BLOCK == 0 && |b| % BLOCK == 0
    ensures var ca := Encrypt(c, key, iv, a);
            Encrypt(c, key, iv, a + b) == ca + Encrypt(c, key, NextIv(iv, ca), b)
    decreases |a|
  {
    if a == [] {
      assert a + b == b;
    } else {
      var head := c.enc(key, Xor(a[..BLOCK], iv));
      var tail := Encrypt(c, key, head, a[BLOCK..]);
      EncryptFirst(c, key, iv, a, b);
      EncryptChains(c, key, head, a[BLOCK..], b);
      NextIvOfTail(iv, head, tail);
      var last := Encrypt(c, key, NextIv(head, tail), b);
      assert head + (tail + last) == (head + tail) + last;
    }
  }

  lemma NextIvChains(iv: Bytes, a: Bytes, b: Bytes)
    requires |iv| == BLOCK && |a| % BLOCK == 0 && |b| % BLOCK == 0 && |a + b| % BLOCK == 0
    ensures NextIv(NextIv(iv, a), b) == NextIv(iv, a + b)
  {
    if b == [] {
      assert a + b == a;
    } else {
      SuffixOfConcat(a, b, BLOCK);
    }
  }

  lemma SuffixOfConcat(a: Bytes, b: Bytes, n: nat)
    requires n <= |b|
    ensures (a + b)[|a + b| - n..] == b[|b| - n..]
  {
  }

  function Block(s: Bytes, k: nat): (b: Bytes)
    requires BLOCK * (k + 1) <= |s|
    ensures |b| == BLOCK
  {
    s[BLOCK * k..BLOCK * (k + 1)]
  }

  lemma BlockOfTail(head: Bytes, tail: Bytes, k: nat)
    requires |head| == BLOCK && k > 0 && BLOCK * k <= |tail|
    ensures Block(head + tail, k) == Block(tail, k - 1)
  {
  }

  lemma FirstBlock(head: Bytes, tail: Bytes)
    requires |head| == BLOCK
    ensures Block(head + tail, 0) == head
  {
  }

  /** The textbook definition: block k is the encryption of plain block k xor the ciphertext block before it. */
  lemma {:induction false} EncryptBlock(c: BlockCipher, key: Bytes, iv: Bytes, plain: Bytes, k: nat)
    requires |iv| == BLOCK && |plain| % BLOCK == 0 && BLOCK * (k + 1) <= |plain|
    ensures var cipher := Encrypt(c, key, iv, plain);
            Block(cipher, k) == c.enc(key, Xor(Block(plain, k), if k == 0 then iv else Block(cipher, k - 1)))
    decreases k
  {
    var head := c.enc(key, Xor(plain[..BLOCK], iv));
    var tail := Encrypt(c, key, head, plain[BLOCK..]);
    var cipher := Encrypt(c, key, iv, plain);
    assert cipher == head + tail && plain == plain[..BLOCK] + plain[BLOCK..];
    FirstBlock(head, tail);
    if k > 0 {
      EncryptBlock(c, key, head, plain[BLOCK..], k - 1);
      BlockOfTail(head, tail, k);
      BlockOfTail(plain[..BLOCK], plain[BLOCK..], k);
      if k > 1 { BlockOfTail(head, tail, k - 1); }
    }
  }
}
