/** Types and byte codecs shared by the other modules. */
module Base {

  datatype Option<+T> = None | Some(value: T)

  datatype Result<+T> = Ok(value: T) | Err(error: string)

  newtype byte = x: int | 0 <= x < 256

  type Bytes = seq<byte>

  // ---- Fixed-width fields: the low bits of a number.  `struct.pack` and `to_bytes` refuse a
  // ---- number that does not fit; callers that can meet one check the range first.

  function U16Big(n: nat): (b: Bytes)
    ensures |b| == 2
  {
    [(n / 256 % 256) as byte, (n % 256) as byte]
  }

  function FromU16Big(b: Bytes): (n: nat)
    requires |b| == 2
    ensures n < 0x1_0000
  {
    256 * b[0] as nat + b[1] as nat
  }

  lemma U16BigRoundTrip(n: nat)
    requires n < 0x1_0000
    ensures FromU16Big(U16Big(n)) == n
  {
  }

  function U16Little(n: nat): (b: Bytes)
    ensures |b| == 2
  {
    [(n % 256) as byte, (n / 256 % 256) as byte]
  }

  function FromU16Little(b: Bytes): (n: nat)
    requires |b| == 2
    ensures n < 0x1_0000
  {
    b[0] as nat + 256 * b[1] as nat
  }

  lemma U16LittleKeepsLow(n: nat)
    ensures FromU16Little(U16Little(n)) == n % 0x1_0000
  {
    LowBytes(n);
  }

  lemma LowBytes(n: nat)
    ensures n % 0x1_0000 == 256 * (n / 256 % 256) + n % 256
  {
    var q := n / 256;
    assert n == 256 * q + n % 256 && q == 256 * (q / 256) + q % 256;
    assert n == 0x1_0000 * (q / 256) + (256 * (q % 256) + n % 256);
  }

  lemma U16LittleRoundTrip(n: nat)
    requires n < 0x1_0000
    ensures FromU16Little(U16Little(n)) == n
  {
    U16LittleKeepsLow(n);
  }

  function U32Little(n: nat): (b: Bytes)
    ensures |b| == 4
  {
    U16Little(n) + U16Little(n / 0x1_0000)
  }

  function FromU32Little(b: Bytes): (n: nat)
    requires |b| == 4
    ensures n < 0x1_0000_0000
  {
    FromU16Little(b[..2]) + 0x1_0000 * FromU16Little(b[2..])
  }

  lemma U32LittleRoundTrip(n: nat)
    requires n < 0x1_0000_0000
    ensures FromU32Little(U32Little(n)) == n
  {
    var b := U32Little(n);
    assert b[..2] == U16Little(n) && b[2..] == U16Little(n / 0x1_0000);
    U16LittleKeepsLow(n);
    U16LittleRoundTrip(n / 0x1_0000);
  }

  function U32Big(n: nat): (b: Bytes)
    ensures |b| == 4
  {
    U16Big(n / 0x1_0000) + U16Big(n)
  }

  function U64Big(n: nat): (b: Bytes)
    ensures |b| == 8
  {
    U32Big(n / 0x1_0000_0000) + U32Big(n)
  }

  /** A field determines the low bits it holds. */
  lemma U16BigInjective(m: nat, n: nat)
    requires U16Big(m) == U16Big(n)
    ensures m % 0x1_0000 == n % 0x1_0000
  {
    LowBytes(m);
    LowBytes(n);
    assert U16Big(m)[0] == U16Big(n)[0] && U16Big(m)[1] == U16Big(n)[1];
  }

  lemma EqualHalves<T>(a: seq<T>, b: seq<T>, c: seq<T>, d: seq<T>)
    requires |a| == |c| && a + b == c + d
    ensures a == c && b == d
  {
    assert a == (a + b)[..|a|] == (c + d)[..|a|] == c;
    assert b == (a + b)[|a|..] == (c + d)[|a|..] == d;
  }

  lemma JoinHalves16(m: nat, n: nat)
    requires m / 0x1_0000 % 0x1_0000 == n / 0x1_0000 % 0x1_0000 && m % 0x1_0000 == n % 0x1_0000
    ensures m % 0x1_0000_0000 == n % 0x1_0000_0000
  {
    assert m % 0x1_0000_0000 == m / 0x1_0000 % 0x1_0000 * 0x1_0000 + m % 0x1_0000;
    assert n % 0x1_0000_0000 == n / 0x1_0000 % 0x1_0000 * 0x1_0000 + n % 0x1_0000;
  }

  lemma U32BigInjective(m: nat, n: nat)
    requires U32Big(m) == U32Big(n)
    ensures m % 0x1_0000_0000 == n % 0x1_0000_0000
  {
    EqualHalves(U16Big(m / 0x1_0000), U16Big(m), U16Big(n / 0x1_0000), U16Big(n));
    U16BigInjective(m / 0x1_0000, n / 0x1_0000);
    U16BigInjective(m, n);
    JoinHalves16(m, n);
  }

  lemma JoinHalves32(m: nat, n: nat)
    requires m < 0x1_0000_0000_0000_0000 && n < 0x1_0000_0000_0000_0000
    requires m / 0x1_0000_0000 % 0x1_0000_0000 == n / 0x1_0000_0000 % 0x1_0000_0000
    requires m % 0x1_0000_0000 == n % 0x1_0000_0000
    ensures m == n
  {
  }

  lemma U64BigInjective(m: nat, n: nat)
    requires m < 0x1_0000_0000_0000_0000 && n < 0x1_0000_0000_0000_0000
    requires U64Big(m) == U64Big(n)
    ensures m == n
  {
    EqualHalves(U32Big(m / 0x1_0000_0000), U32Big(m), U32Big(n / 0x1_0000_0000), U32Big(n));
    U32BigInjective(m / 0x1_0000_0000, n / 0x1_0000_0000);
    U32BigInjective(m, n);
    JoinHalves32(m, n);
  }

  // ---- Numbers of any width ---------------------------------------------------------------

  /** `n.to_bytes(width, "big")`, most significant bytes dropped when they do not fit. */
  function BigEndian(n: nat, width: nat): (b: Bytes)
    ensures |b| == width
  {
    if width == 0 then [] else BigEndian(n / 256, width - 1) + [(n % 256) as byte]
  }

  /** `int.from_bytes(b, "big")`. */
  function FromBigEndian(b: Bytes): nat {
    if b == [] then 0 else 256 * FromBigEndian(b[..|b| - 1]) + b[|b| - 1] as nat
  }

  /** `int.from_bytes(b, "little")`. */
  function FromLittleEndian(b: Bytes): nat {
    if b == [] then 0 else b[0] as nat + 256 * FromLittleEndian(b[1..])
  }

  function Pow256(k: nat): (p: nat)
    ensures p > 0
  {
    if k == 0 then 1 else 256 * Pow256(k - 1)
  }

  lemma {:induction false} BigEndianRoundTrip(n: nat, width: nat)
    requires n < Pow256(width)
    ensures FromBigEndian(BigEndian(n, width)) == n
  {
    if width > 0 {
      BigEndianRoundTrip(n / 256, width - 1);
      assert BigEndian(n, width)[..width - 1] == BigEndian(n / 256, width - 1);
    }
  }

  /** A number without its `j` lowest bytes. */
  function Drop(n: nat, j: nat): nat { if j == 0 then n else Drop(n / 256, j - 1) }

  lemma {:induction false} BigEndianSplits(n: nat, i: nat, j: nat)
    ensures BigEndian(n, i + j) == BigEndian(Drop(n, j), i) + BigEndian(n, j)
  {
    if j == 0 {
      assert BigEndian(n, i) + [] == BigEndian(n, i);
    } else {
      BigEndianSplits(n / 256, i, j - 1);
      assert BigEndian(Drop(n, j), i) + (BigEndian(n / 256, j - 1) + [(n % 256) as byte])
             == (BigEndian(Drop(n, j), i) + BigEndian(n / 256, j - 1)) + [(n % 256) as byte];
    }
  }

  lemma DropTwo(n: nat)
    ensures Drop(n, 2) == n / 0x1_0000
  {
    assert Drop(n, 2) == Drop(n / 256, 1) == n / 256 / 256 == n / 0x1_0000;
  }

  lemma DropFour(n: nat)
    ensures Drop(n, 4) == n / 0x1_0000_0000
  {
    DropTwo(n);
    DropTwo(n / 0x1_0000);
    assert Drop(n, 4) == Drop(Drop(n, 2), 2);
    assert n / 0x1_0000 / 0x1_0000 == n / 0x1_0000_0000;
  }

  /** The fixed-width fields are the general big-endian form at their widths. */
  lemma FieldsAreBigEndian(n: nat)
    ensures U16Big(n) == BigEndian(n, 2) && U32Big(n) == BigEndian(n, 4) && U64Big(n) == BigEndian(n, 8)
  {
    U32BigIsBigEndian(n);
    U32BigIsBigEndian(n / 0x1_0000_0000);
    BigEndianSplits(n, 4, 4);
    DropFour(n);
  }

  lemma U16BigIsBigEndian(n: nat)
    ensures U16Big(n) == BigEndian(n, 2)
  {
    assert BigEndian(n, 2) == BigEndian(n / 256, 1) + [(n % 256) as byte];
    assert BigEndian(n / 256, 1) == [] + [(n / 256 % 256) as byte];
  }

  lemma U32BigIsBigEndian(n: nat)
    ensures U16Big(n) == BigEndian(n, 2) && U32Big(n) == BigEndian(n, 4)
  {
    U16BigIsBigEndian(n);
    U16BigIsBigEndian(n / 0x1_0000);
    BigEndianSplits(n, 2, 2);
    DropTwo(n);
  }

  lemma SliceOfSlice<T>(s: seq<T>, lo: nat, hi: nat, i: nat, j: nat)
    requires lo <= hi <= |s| && i <= j <= hi - lo
    ensures s[lo..hi][i..j] == s[lo + i..lo + j]
  {
    var inner, outer := s[lo..hi][i..j], s[lo + i..lo + j];
    assert |inner| == |outer|;
    forall k | 0 <= k < |outer| ensures inner[k] == outer[k] {
      assert inner[k] == s[lo..hi][i + k] == s[lo + (i + k)];
    }
  }

  lemma SliceOfDrop<T>(s: seq<T>, lo: nat, i: nat, j: nat)
    requires lo <= |s| && i <= j <= |s| - lo
    ensures s[lo..][i..j] == s[lo + i..lo + j]
  {
    assert s[lo..] == s[lo..|s|];
    SliceOfSlice(s, lo, |s|, i, j);
  }

  lemma SliceOfPrefix<T>(s: seq<T>, n: nat, i: nat, j: nat)
    requires i <= j <= n <= |s|
    ensures s[..n][i..j] == s[i..j]
  {
    SliceOfSlice(s, 0, n, i, j);
  }

  /** `inferior.read_memory(at, n)`. */
  function Memory(mem: nat -> byte, at: nat, n: nat): (b: Bytes)
    ensures |b| == n
  {
    seq(n, k requires 0 <= k < n => mem(at + k))
  }

  /** `n` copies of one byte. */
  function Repeat(x: byte, n: nat): (b: Bytes)
    ensures |b| == n
    ensures forall k | 0 <= k < n :: b[k] == x
  {
    seq(n, _ => x)
  }

  /** A hash function of which only the digest size is known. */
  datatype Hash = Hash(digest: Bytes -> Bytes, size: nat)

  ghost predicate Sized(h: Hash) {
    forall x: Bytes :: |h.digest(x)| == h.size
  }

  /** Two different inputs with the same digest. */
  predicate Collision(h: Hash, x: Bytes, y: Bytes) { x != y && h.digest(x) == h.digest(y) }

  type Sha1 = h: Hash | Sized(h) && h.size == 20 witness Hash((x: Bytes) => Repeat(0, 20), 20)

  type Md5 = h: Hash | Sized(h) && h.size == 16 witness Hash((x: Bytes) => Repeat(0, 16), 16)
}
