/** The length-prefixed record stream of scan lines: its one-behind writer and its truncation-tolerant reader. */
module Lines {
  import opened Base

  const MAX_WIDTH := 4096
  const BUFFER_HDR := 8

  function Encode(rows: seq<Bytes>): Bytes {
    if rows == [] then [] else U16Little(|rows[0]|) + rows[0] + Encode(rows[1..])
  }

  /** A row is stored as its length, low byte first, and its bytes. */
  lemma EncodedBytes(rows: seq<Bytes>)
    requires rows != [] && |rows[0]| <= 0xffff
    ensures var n := |rows[0]|;
            Encode(rows) == [(n % 256) as byte, (n / 256) as byte] + rows[0] + Encode(rows[1..])
  {
    assert |rows[0]| / 256 % 256 == |rows[0]| / 256;
  }

  /** What the reader makes of a byte string: whole records from the front. */
  function Decode(d: Bytes): seq<Bytes>
    decreases |d|
  {
    if |d| < 2 || 2 + FromU16Little(d[..2]) > |d| then []
    else
      var n := FromU16Little(d[..2]);
      [d[2..2 + n]] + Decode(d[2 + n..])
  }

  lemma DecodeAt(d: Bytes, i: nat)
    requires i + 2 <= |d|
    ensures var n := FromU16Little(d[i..i + 2]);
            Decode(d[i..]) ==
            if i + 2 + n > |d| then [] else [d[i + 2..i + 2 + n]] + Decode(d[i + 2 + n..])
  {
    var rest, n := d[i..], FromU16Little(d[i..i + 2]);
    SliceOfDrop(d, i, 0, 2);
    if i + 2 + n <= |d| {
      SliceOfDrop(d, i, 2, 2 + n);
      assert rest[2 + n..] == d[i + 2 + n..];
    }
  }

  method Load(d: Bytes) returns (rows: seq<Bytes>)
    ensures rows == Decode(d)
  {
    var i := 0;
    rows := [];
    assert d[0..] == d && rows + Decode(d) == Decode(d);
    while i + 2 <= |d|
      invariant 0 <= i <= |d| && rows + Decode(d[i..]) == Decode(d)
      decreases |d| - i
    {
      var n := FromU16Little(d[i..i + 2]);
      DecodeAt(d, i);
      i := i + 2;
      if i + n > |d| {
        assert rows + [] == rows;
        return;
      }
      var row := d[i..i + n];
      assert rows + ([row] + Decode(d[i + n..])) == (rows + [row]) + Decode(d[i + n..]);
      rows := rows + [row];
      i := i + n;
    }
    assert Decode(d[i..]) == [] && rows + [] == rows;
  }

  /** How many records lie wholly within the first `p` bytes. */
  function WholeRows(rows: seq<Bytes>, p: nat): (k: nat)
    ensures k <= |rows|
  {
    if rows == [] || 2 + |rows[0]| > p then 0 else 1 + WholeRows(rows[1..], p - 2 - |rows[0]|)
  }

  lemma {:induction false} WholeRowsIsExact(rows: seq<Bytes>, p: nat)
    ensures var k := WholeRows(rows, p);
            && |Encode(rows[..k])| <= p
            && (k < |rows| ==> p < |Encode(rows[..k + 1])|)
    decreases |rows|
  {
    if rows != [] && 2 + |rows[0]| <= p {
      var q, k := p - 2 - |rows[0]|, WholeRows(rows, p);
      WholeRowsIsExact(rows[1..], q);
      assert rows[..k][1..] == rows[1..][..k - 1];
      if k < |rows| { assert rows[..k + 1][1..] == rows[1..][..k]; }
    } else if rows != [] {
      assert rows[..1][1..] == [];
    }
  }

  /** Any byte-prefix of an encoded file is read back as exactly the rows it wholly contains. */
  lemma {:induction false} TruncatedFileDecodes(rows: seq<Bytes>, p: nat)
    requires (forall k | 0 <= k < |rows| :: |rows[k]| <= 0xffff) && p <= |Encode(rows)|
    ensures Decode(Encode(rows)[..p]) == rows[..WholeRows(rows, p)]
    decreases |rows|
  {
    if rows != [] {
      var d, n, tail := Encode(rows)[..p], |rows[0]|, Encode(rows[1..]);
      U16LittleRoundTrip(n);
      if p >= 2 {
        assert d[..2] == U16Little(n);
        if 2 + n <= p {
          assert d[2..2 + n] == rows[0];
          assert d[2 + n..] == tail[..p - 2 - n];
          TruncatedFileDecodes(rows[1..], p - 2 - n);
          assert [rows[0]] + rows[1..][..WholeRows(rows[1..], p - 2 - n)] == rows[..WholeRows(rows, p)];
        }
      }
    }
  }

  lemma {:induction false} WholeFileIsAllRows(rows: seq<Bytes>)
    ensures WholeRows(rows, |Encode(rows)|) == |rows|
  {
    if rows != [] {
      WholeFileIsAllRows(rows[1..]);
    }
  }

  lemma {:induction false} EncodeAppends(rows: seq<Bytes>, r: Bytes)
    ensures Encode(rows + [r]) == Encode(rows) + (U16Little(|r|) + r)
  {
    if rows == [] {
      assert [r][1..] == [] && [] + [r] == [r];
      assert Encode([r]) == U16Little(|r|) + r + Encode([]);
    } else {
      EncodeAppends(rows[1..], r);
      assert (rows + [r])[1..] == rows[1..] + [r];
    }
  }

  // ---- The writer -------------------------------------------------------------------------

  /** One breakpoint hit: the output buffer, the configured width, and the memory at that moment. */
  datatype Hit = Hit(buffer: nat, width: nat, mem: nat -> byte)

  predicate Plausible(width: nat) { 0 < width <= MAX_WIDTH }

  /** The lines of a run: the buffer of each hit but the last, as the memory has it one hit later. */
  function Harvested(hits: seq<Hit>): seq<Bytes> {
    if |hits| < 2 then []
    else
      var was, now := hits[|hits| - 2], hits[|hits| - 1];
      Harvested(hits[..|hits| - 1])
      + (if Plausible(was.width) then [Memory(now.mem, was.buffer + BUFFER_HDR, was.width)] else [])
  }

  /** How many of the first `k` hits have a plausible width. */
  function Kept(hits: seq<Hit>, k: nat): nat
    requires k <= |hits|
  {
    if k == 0 then 0 else Kept(hits, k - 1) + (if 0 < hits[k - 1].width <= 4096 then 1 else 0)
  }

  lemma {:induction false} KeptOfPrefix(hits: seq<Hit>, n: nat, k: nat)
    requires k <= n <= |hits|
    ensures Kept(hits[..n], k) == Kept(hits, k)
  {
    if k > 0 { KeptOfPrefix(hits, n, k - 1); }
  }

  /** One line for every plausible hit but the last. */
  lemma {:induction false} HarvestedCount(hits: seq<Hit>)
    requires hits != []
    ensures |Harvested(hits)| == Kept(hits, |hits| - 1)
    decreases |hits|
  {
    if |hits| >= 2 {
      HarvestedCount(hits[..|hits| - 1]);
      KeptOfPrefix(hits, |hits| - 1, |hits| - 2);
    }
  }

  /** Byte by byte: the line of a plausible hit is its buffer, after the 8-byte header, one hit later. */
  lemma {:induction false} HarvestedLine(hits: seq<Hit>, i: nat)
    requires i + 1 < |hits| && 0 < hits[i].width <= 4096
    ensures Kept(hits, i) < |Harvested(hits)|
    ensures var line := Harvested(hits)[Kept(hits, i)];
            |line| == hits[i].width
            && forall j | 0 <= j < |line| :: line[j] == hits[i + 1].mem(hits[i].buffer + 8 + j)
    decreases |hits|
  {
    var init := hits[..|hits| - 1];
    HarvestedCount(init);
    KeptOfPrefix(hits, |hits| - 1, |hits| - 2);
    if i + 2 < |hits| {
      HarvestedLine(init, i);
      KeptOfPrefix(hits, |hits| - 1, i);
    }
  }

  class Harvester {
    var prev: Option<(nat, nat)>
    var n: nat
    var file: Bytes
    ghost var hits: seq<Hit>

    ghost predicate Valid()
      reads this
    {
      && prev == (if hits == [] then None else Some((hits[|hits| - 1].buffer, hits[|hits| - 1].width)))
      && file == Encode(Harvested(hits))
      && n == |Harvested(hits)|
    }

    constructor ()
      ensures Valid() && hits == []
    {
      prev, n, file, hits := None, 0, [], [];
    }

    method Stop(hit: Hit)
      requires Valid()
      modifies this
      ensures Valid() && hits == old(hits) + [hit]
    {
      ghost var before := hits;
      assert (before + [hit])[..|before|] == before;
      if prev.Some? {
        var (po, pw) := prev.value;
        if 0 < pw <= MAX_WIDTH {
          var data := Memory(hit.mem, po + BUFFER_HDR, pw);
          file := file + (U16Little(pw) + data);
          n := n + 1;
          EncodeAppends(Harvested(before), data);
        } else {
          assert Harvested(before) + [] == Harvested(before);
        }
      }
      prev := Some((hit.buffer, hit.width));
      hits := hits + [hit];
    }
  }

  lemma {:induction false} HarvestedRowsAreShort(hits: seq<Hit>)
    ensures forall k | 0 <= k < |Harvested(hits)| :: 0 < |Harvested(hits)[k]| <= MAX_WIDTH
    decreases |hits|
  {
    if |hits| >= 2 {
      HarvestedRowsAreShort(hits[..|hits| - 1]);
    }
  }

  /** Whatever was harvested is what the reader gets, from the whole file or any byte-prefix of it. */
  lemma HarvestedFileLoads(hits: seq<Hit>, p: nat)
    requires p <= |Encode(Harvested(hits))|
    ensures Decode(Encode(Harvested(hits))[..p]) == Harvested(hits)[..WholeRows(Harvested(hits), p)]
    ensures Decode(Encode(Harvested(hits))) == Harvested(hits)
  {
    var rows := Harvested(hits);
    HarvestedRowsAreShort(hits);
    TruncatedFileDecodes(rows, p);
    TruncatedFileDecodes(rows, |Encode(rows)|);
    WholeFileIsAllRows(rows);
    assert Encode(rows)[..|Encode(rows)|] == Encode(rows) && rows[..|rows|] == rows;
  }
}
