/** PKCS#1 v1.5 encryption blocks (section 7.2.1 of RFC 8017) and the RSA call around them. */
module Pkcs1 {
  import opened Base

  /** The non-zero bytes of a random stream, in order. */
  function NonZero(stream: Bytes): (r: Bytes)
    ensures |r| <= |stream|
    ensures forall i | 0 <= i < |r| :: r[i] != 0
  {
    if stream == [] then []
    else if stream[|stream| - 1] == 0 then NonZero(stream[..|stream| - 1])
    else NonZero(stream[..|stream| - 1]) + [stream[|stream| - 1]]
  }

  function Needed(k: nat, msg: Bytes): nat {
    if k < 3 + |msg| then 0 else k - 3 - |msg|
  }

  lemma {:induction false} NonZeroGrows(stream: Bytes, i: nat, j: nat)
    requires i <= j <= |stream|
    ensures NonZero(stream[..i]) <= NonZero(stream[..j])
    decreases j
  {
    if i < j {
      NonZeroGrows(stream, i, j - 1);
      assert stream[..j][..j - 1] == stream[..j - 1];
    }
  }

  /** The endless random source is a stream long enough to supply the padding. */
  method PaddedBlock(k: nat, msg: Bytes, stream: Bytes) returns (em: Bytes)
    requires |NonZero(stream)| >= Needed(k, msg)
    ensures em == [0, 2] + NonZero(stream)[..Needed(k, msg)] + [0] + msg
  {
    var ps: Bytes, at := [], 0;
    while |ps| < k - 3 - |msg|
      invariant 0 <= at <= |stream| && ps == NonZero(stream[..at]) && |ps| <= Needed(k, msg)
      decreases |stream| - at
    {
      assert at < |stream| by {
        assert stream[..|stream|] == stream;
      }
      var b := stream[at];
      assert stream[..at + 1][..at] == stream[..at];
      at := at + 1;
      if b != 0 {
        ps := ps + [b];
      }
    }
    NonZeroGrows(stream, at, |stream|);
    assert stream[..|stream|] == stream;
    em := [0, 2] + ps + [0] + msg;
  }

  /** The receiver's view: skip to the first zero byte after the two leading ones. */
  function FirstZero(b: Bytes, i: nat): (z: Option<nat>)
    requires i <= |b|
    ensures z.Some? ==> i <= z.value < |b| && b[z.value] == 0 && forall j | i <= j < z.value :: b[j] != 0
    ensures z.None? ==> forall j | i <= j < |b| :: b[j] != 0
    decreases |b| - i
  {
    if i == |b| then None else if b[i] == 0 then Some(i) else FirstZero(b, i + 1)
  }

  function Decode(em: Bytes): Option<Bytes> {
    if |em| < 2 || em[0] != 0 || em[1] != 2 then None
    else
      match FirstZero(em, 2)
      case None => None
      case Some(z) => Some(em[z + 1..])
  }

  /** The block has the modulus length exactly when the message leaves room, and always gives the message back. */
  lemma BlockRoundTrip(k: nat, msg: Bytes, stream: Bytes)
    requires |NonZero(stream)| >= Needed(k, msg)
    ensures var em := [0, 2] + NonZero(stream)[..Needed(k, msg)] + [0] + msg;
            && (|em| == k <==> |msg| + 3 <= k)
            && Decode(em) == Some(msg)
  {
    var ps := NonZero(stream)[..Needed(k, msg)];
    var em := [0, 2] + ps + [0] + msg;
    var z := 2 + |ps|;
    assert em[z] == 0;
    assert forall j | 2 <= j < z :: em[j] == ps[j - 2];
    assert FirstZero(em, 2) == Some(z);
    assert em[z + 1..] == msg;
  }

  /** The decoder of section 7.2.2 of RFC 8017, which refuses a padding of fewer than eight bytes. */
  function StandardDecode(em: Bytes): Option<Bytes> {
    if |em| < 2 || em[0] != 0 || em[1] != 2 then None
    else
      match FirstZero(em, 2)
      case None => None
      case Some(z) => if z - 2 < 8 then None else Some(em[z + 1..])
  }

  /** The program does not check the message length: the standard's decoder accepts up to k - 11 bytes only. */
  lemma StandardBlock(k: nat, msg: Bytes, stream: Bytes)
    requires |NonZero(stream)| >= Needed(k, msg)
    ensures var em := [0, 2] + NonZero(stream)[..Needed(k, msg)] + [0] + msg;
            StandardDecode(em) == if |msg| + 11 <= k then Some(msg) else None
  {
    var ps := NonZero(stream)[..Needed(k, msg)];
    var em := [0, 2] + ps + [0] + msg;
    BlockRoundTrip(k, msg, stream);
    assert em[2 + |ps|] == 0;
    assert forall j | 2 <= j < 2 + |ps| :: em[j] == ps[j - 2];
    assert FirstZero(em, 2) == Some(2 + |ps|);
  }

  /** A 48-byte premaster under a modulus of 58 bytes: the block fits and is readable, but not by the standard. */
  lemma ShortPaddingExists() returns (k: nat, msg: Bytes, stream: Bytes)
    ensures k == 58 && |msg| == 48 && |NonZero(stream)| == Needed(k, msg) == 7
    ensures var em := [0, 2] + NonZero(stream) + [0] + msg;
            |em| == k && Decode(em) == Some(msg) && StandardDecode(em) == None
  {
    k, msg, stream := 58, Repeat(1, 48), Repeat(1, 7);
    AllNonZero(stream);
    StandardBlock(k, msg, stream);
    BlockRoundTrip(k, msg, stream);
    assert NonZero(stream)[..7] == NonZero(stream);
  }

  lemma {:induction false} AllNonZero(stream: Bytes)
    requires forall i | 0 <= i < |stream| :: stream[i] != 0
    ensures NonZero(stream) == stream
  {
    if stream != [] {
      AllNonZero(stream[..|stream| - 1]);
    }
  }

  /** `pow(m, e)`. */
  function Power(m: nat, e: nat): nat {
    if e == 0 then 1 else m * Power(m, e - 1)
  }

  /** What makes it a power. */
  lemma {:induction false} PowerLaws(m: nat, a: nat, b: nat)
    ensures Power(m, 0) == 1 && Power(m, 1) == m
    ensures Power(m, a + b) == Power(m, a) * Power(m, b)
  {
    assert Power(m, 1) == m * Power(m, 0) == m;
    if a > 0 {
      PowerLaws(m, a - 1, b);
      MultiplyTwice(m, Power(m, a - 1), Power(m, b));
    }
  }

  lemma MultiplyTwice(x: nat, y: nat, z: nat)
    ensures x * (y * z) == (x * y) * z
  {
  }

  /** The modulus is stored little-endian, the result is big-endian. */
  method RsaEncryptReversed(modulus: Bytes, exp: nat, msg: Bytes, stream: Bytes) returns (r: Result<Bytes>)
    requires |NonZero(stream)| >= Needed(|modulus|, msg)
    ensures r.Ok? <==> FromLittleEndian(modulus) != 0
    ensures r.Ok? ==>
              && |r.value| == |modulus|
              && FromBigEndian(r.value) < FromLittleEndian(modulus)
              && var em := [0, 2] + NonZero(stream)[..Needed(|modulus|, msg)] + [0] + msg;
                 FromBigEndian(r.value) == Power(FromBigEndian(em), exp) % FromLittleEndian(modulus)
  {
    var n := FromLittleEndian(modulus);
    var k := |modulus|;
    var em := PaddedBlock(k, msg, stream);
    if n == 0 {
      return Err("pow() 3rd argument cannot be 0");
    }
    var c := Power(FromBigEndian(em), exp) % n;
    FromLittleEndianBound(modulus);
    BigEndianRoundTrip(c, k);
    return Ok(BigEndian(c, k));
  }

  lemma {:induction false} FromLittleEndianBound(b: Bytes)
    ensures FromLittleEndian(b) < Pow256(|b|)
  {
    if b != [] {
      FromLittleEndianBound(b[1..]);
    }
  }

  lemma {:induction false} FromLittleEndianTop(b: Bytes)
    requires b != [] && b[|b| - 1] != 0
    ensures FromLittleEndian(b) >= Pow256(|b| - 1)
    decreases |b|
  {
    if |b| > 1 {
      FromLittleEndianTop(b[1..]);
    }
  }

  lemma {:induction false} LeadingZero(b: Bytes)
    requires b != [] && b[0] == 0
    ensures FromBigEndian(b) < Pow256(|b| - 1)
    decreases |b|
  {
    if |b| > 1 {
      LeadingZero(b[..|b| - 1]);
    }
  }

  lemma LeadingZeroBelow(modulus: Bytes, em: Bytes)
    requires modulus != [] && modulus[|modulus| - 1] != 0
    requires |em| == |modulus| && em[0] == 0
    ensures FromBigEndian(em) < FromLittleEndian(modulus)
  {
    FromLittleEndianTop(modulus);
    LeadingZero(em);
  }

  /** A block that fits is smaller than any modulus of the same length whose top byte is not zero. */
  lemma BlockBelowModulus(modulus: Bytes, msg: Bytes, padding: Bytes)
    requires |msg| + 3 <= |modulus| && |padding| == Needed(|modulus|, msg)
    requires modulus[|modulus| - 1] != 0
    ensures FromBigEndian([0, 2] + padding + [0] + msg) < FromLittleEndian(modulus)
  {
    var em := [0, 2] + padding + [0] + msg;
    LeadingZeroBelow(modulus, em);
  }
}
