/** The magic-byte scan that cuts a capture buffer into lines, and what it does to framed data. */
module Scanner {
  import opened Base
  import opened Descramble

  /** A whole line starts at `i` by the tests of the scan. */
  predicate HeaderAt(b: Bytes, i: nat) {
    && i + FRAME <= |b|
    && b[i] == 0x01 && (b[i + 1] == 0x01 || b[i + 1] == 0xfe)
    && b[i + 3] == 0x00 && b[i + 7] == 0x00
    && EightBit(b[i + 6])
  }

  /** The greedy parser: where lines are accepted from `i` on. */
  function Positions(b: Bytes, i: nat): seq<nat>
    decreases |b| - i
  {
    if i + FRAME > |b| then []
    else if HeaderAt(b, i) then [i] + Positions(b, i + FRAME)
    else Positions(b, i + 1)
  }

  /** The kept part of the line at `i`. */
  function Row(b: Bytes, i: nat): (r: Bytes)
    requires i + FRAME <= |b|
    ensures |r| == IMAGE_WIDTH
  {
    Descrambled(b[i + LINE_HDR..i + FRAME])[..IMAGE_WIDTH]
  }

  function RowsAt(b: Bytes, ps: seq<nat>): (rs: seq<Bytes>)
    requires forall k | 0 <= k < |ps| :: ps[k] + FRAME <= |b|
    ensures |rs| == |ps|
    ensures forall k | 0 <= k < |rs| :: |rs[k]| == IMAGE_WIDTH
  {
    seq(|ps|, k requires 0 <= k < |ps| => Row(b, ps[k]))
  }

  lemma RowsAtCons(b: Bytes, x: nat, rest: seq<nat>)
    requires x + FRAME <= |b| && forall k | 0 <= k < |rest| :: rest[k] + FRAME <= |b|
    ensures forall k | 0 <= k < |[x] + rest| :: ([x] + rest)[k] + FRAME <= |b|
    ensures RowsAt(b, [x] + rest) == [Row(b, x)] + RowsAt(b, rest)
  {
  }

  /** Accepted lines carry a header, lie in the buffer, never overlap, and come in order. */
  lemma {:induction false} AcceptedLinesAreDisjoint(b: Bytes, i: nat)
    ensures forall k | 0 <= k < |Positions(b, i)| :: i <= Positions(b, i)[k] && HeaderAt(b, Positions(b, i)[k])
    ensures forall j, k | 0 <= j < k < |Positions(b, i)| :: Positions(b, i)[j] + FRAME <= Positions(b, i)[k]
    decreases |b| - i
  {
    var ps := Positions(b, i);
    if i + FRAME > |b| {
    } else if HeaderAt(b, i) {
      AcceptedLinesAreDisjoint(b, i + FRAME);
      var rest := Positions(b, i + FRAME);
      assert forall k | 1 <= k < |ps| :: ps[k] == rest[k - 1];
    } else {
      AcceptedLinesAreDisjoint(b, i + 1);
      assert ps == Positions(b, i + 1);
    }
  }

  /** Nothing that looks like a line is dropped unless it starts inside an accepted one. */
  lemma {:induction false} EveryHeaderIsCovered(b: Bytes, i: nat, p: nat) returns (k: nat)
    requires i <= p && HeaderAt(b, p)
    ensures k < |Positions(b, i)| && Positions(b, i)[k] <= p < Positions(b, i)[k] + FRAME
    decreases |b| - i
  {
    if HeaderAt(b, i) {
      if p < i + FRAME {
        k := 0;
      } else {
        var rest := EveryHeaderIsCovered(b, i + FRAME, p);
        k := rest + 1;
      }
    } else {
      k := EveryHeaderIsCovered(b, i + 1, p);
    }
  }

  /** The kept rows from `i` on, in stream order. */
  function ScanFrom(b: Bytes, i: nat): (rs: seq<Bytes>)
    ensures forall k | 0 <= k < |rs| :: |rs[k]| == IMAGE_WIDTH
  {
    AcceptedLinesAreDisjoint(b, i);
    RowsAt(b, Positions(b, i))
  }

  function Scan(b: Bytes): seq<Bytes> { ScanFrom(b, 0) }

  lemma ScanFromStep(b: Bytes, i: nat)
    ensures i + FRAME > |b| ==> ScanFrom(b, i) == []
    ensures HeaderAt(b, i) ==> ScanFrom(b, i) == [Row(b, i)] + ScanFrom(b, i + FRAME)
    ensures i + FRAME <= |b| && !HeaderAt(b, i) ==> ScanFrom(b, i) == ScanFrom(b, i + 1)
  {
    AcceptedLinesAreDisjoint(b, i);
    if HeaderAt(b, i) {
      AcceptedLinesAreDisjoint(b, i + FRAME);
      RowsAtCons(b, i, Positions(b, i + FRAME));
    }
  }

  // ---- Which bytes make a line ------------------------------------------------------------

  lemma HeaderShift(b: Bytes, i: nat, j: nat)
    requires i <= |b|
    ensures HeaderAt(b[i..], j) == HeaderAt(b, i + j)
  {
  }

  lemma RowShift(b: Bytes, i: nat, p: nat)
    requires i + p + FRAME <= |b|
    ensures Row(b[i..], p) == Row(b, i + p)
  {
    SliceOfDrop(b, i, p + LINE_HDR, p + FRAME);
  }

  function Raised(ps: seq<nat>, n: nat): (r: seq<nat>)
    ensures |r| == |ps| && forall k | 0 <= k < |ps| :: r[k] == n + ps[k]
  {
    seq(|ps|, k requires 0 <= k < |ps| => n + ps[k])
  }

  lemma RaisedCons(x: nat, ps: seq<nat>, n: nat)
    ensures Raised([x] + ps, n) == [n + x] + Raised(ps, n)
  {
  }

  lemma {:induction false} PositionsShift(b: Bytes, i: nat, j: nat)
    requires i <= |b|
    ensures Positions(b, i + j) == Raised(Positions(b[i..], j), i)
    decreases |b| - i - j
  {
    if i + j + FRAME <= |b| {
      HeaderShift(b, i, j);
      if HeaderAt(b, i + j) {
        PositionsShift(b, i, j + FRAME);
        RaisedCons(j, Positions(b[i..], j + FRAME), i);
      } else {
        PositionsShift(b, i, j + 1);
      }
    }
  }

  lemma RowsShift(b: Bytes, i: nat, ps: seq<nat>)
    requires i <= |b| && forall k | 0 <= k < |ps| :: ps[k] + FRAME <= |b[i..]|
    ensures RowsAt(b, Raised(ps, i)) == RowsAt(b[i..], ps)
  {
    forall k | 0 <= k < |ps| ensures Row(b, i + ps[k]) == Row(b[i..], ps[k]) {
      RowShift(b, i, ps[k]);
    }
  }

  /** Scanning from `i` on is scanning what is left there. */
  lemma ScanShift(b: Bytes, i: nat)
    requires i <= |b|
    ensures ScanFrom(b, i) == Scan(b[i..])
  {
    PositionsShift(b, i, 0);
    AcceptedLinesAreDisjoint(b[i..], 0);
    RowsShift(b, i, Positions(b[i..], 0));
  }

  /**
    The scan in terms of bytes.  A buffer that begins with 01, then 01 or fe, with 00 in its fourth and
    eighth byte and 8 in the low half of its seventh gives one row, its bytes 8 to 207 backwards, and
    goes on 272 bytes later; any other goes on at the next byte; under 272 bytes nothing is left.
   */
  lemma ScanByBytes(b: Bytes)
    ensures |b| < 272 ==> Scan(b) == []
    ensures |b| >= 272 ==>
              Scan(b) ==
              if b[0] == 1 && (b[1] == 1 || b[1] == 0xfe) && b[3] == 0 && b[6] % 16 == 8 && b[7] == 0
              then [seq(200, x requires 0 <= x < 200 => b[207 - x])] + Scan(b[272..])
              else Scan(b[1..])
  {
    ScanFromStep(b, 0);
    if |b| >= 272 {
      ScanShift(b, 272);
      ScanShift(b, 1);
      MainImageIsReversed(b[8..272]);
      assert Row(b, 0) == seq(200, x requires 0 <= x < 200 => b[207 - x]);
    }
  }

  /** A buffer of one line's length: one row if all tests hold, nothing if one of them fails. */
  lemma ScanOfOneLine(t: byte, a: byte, c: byte, d: byte, m: byte, px: Bytes)
    requires |px| == 264
    ensures Scan([1, t, a, 0, c, d, m, 0] + px) ==
            if (t == 1 || t == 0xfe) && m % 16 == 8 then [seq(200, x requires 0 <= x < 200 => px[199 - x])] else []
  {
    var b := [1, t, a, 0, c, d, m, 0] + px;
    ScanByBytes(b);
    ScanByBytes(b[1..]);
    ScanByBytes(b[272..]);
    assert seq(200, x requires 0 <= x < 200 => b[207 - x]) == seq(200, x requires 0 <= x < 200 => px[199 - x]);
  }

  // ---- Framed data with junk in between ---------------------------------------------------

  datatype Piece = Junk(bytes: Bytes) | Line(bytes: Bytes)

  /** A line piece is one whole frame. */
  predicate Framed(ps: seq<Piece>) {
    forall k | 0 <= k < |ps| && ps[k].Line? :: |ps[k].bytes| == FRAME && HeaderAt(ps[k].bytes, 0)
  }

  function Flatten(ps: seq<Piece>): Bytes {
    if ps == [] then [] else ps[0].bytes + Flatten(ps[1..])
  }

  /** Where the frames start when the first piece starts at `base`. */
  function FrameOffsets(ps: seq<Piece>, base: nat): seq<nat> {
    if ps == [] then []
    else (if ps[0].Line? then [base] else []) + FrameOffsets(ps[1..], base + |ps[0].bytes|)
  }

  predicate JunkAt(ps: seq<Piece>, base: nat, p: nat) {
    ps != [] && ((ps[0].Junk? && base <= p < base + |ps[0].bytes|) || JunkAt(ps[1..], base + |ps[0].bytes|, p))
  }

  lemma {:induction false} FramesStartLater(ps: seq<Piece>, base: nat)
    ensures forall k | 0 <= k < |FrameOffsets(ps, base)| :: FrameOffsets(ps, base)[k] >= base
  {
    if ps != [] {
      FramesStartLater(ps[1..], base + |ps[0].bytes|);
    }
  }

  ghost predicate NoJunkHeader(b: Bytes, ps: seq<Piece>, base: nat) {
    forall p | JunkAt(ps, base, p) :: !HeaderAt(b, p)
  }

  lemma SameHead(x: nat, a: seq<nat>, b: seq<nat>)
    ensures [x] + a == [x] + b <==> a == b
  {
    assert ([x] + a)[1..] == a && ([x] + b)[1..] == b;
  }

  lemma JunkHeaderMisleads(b: Bytes, ps: seq<Piece>, i: nat)
    requires ps != [] && ps[0].Junk? && ps[0].bytes != [] && HeaderAt(b, i)
    ensures Positions(b, i) != FrameOffsets(ps, i) && !NoJunkHeader(b, ps, i)
  {
    FramesStartLater(ps[1..], i + |ps[0].bytes|);
    assert FrameOffsets(ps, i) == FrameOffsets(ps[1..], i + |ps[0].bytes|);
    assert Positions(b, i)[0] == i;
    assert JunkAt(ps, i, i);
  }

  /** The scan finds exactly the frames if and only if no junk byte starts something that looks like one. */
  lemma {:induction false} ScanResynchronises(b: Bytes, before: Bytes, ps: seq<Piece>)
    requires Framed(ps) && b == before + Flatten(ps)
    ensures Positions(b, |before|) == FrameOffsets(ps, |before|) <==> NoJunkHeader(b, ps, |before|)
    decreases |Flatten(ps)|, |ps|
  {
    var i := |before|;
    if ps == [] {
      assert !NoJunkHeader(b, ps, i) ==> false;
    } else if ps[0].bytes == [] {
      assert Flatten(ps) == Flatten(ps[1..]);
      assert FrameOffsets(ps, i) == FrameOffsets(ps[1..], i);
      ScanResynchronises(b, before, ps[1..]);
    } else if ps[0].Line? {
      ScanTakesFrame(b, before, ps);
      ScanResynchronises(b, before + ps[0].bytes, ps[1..]);
      SameHead(i, Positions(b, i + FRAME), FrameOffsets(ps[1..], i + FRAME));
    } else if HeaderAt(b, i) {
      JunkHeaderMisleads(b, ps, i);
    } else {
      var rest := Shorter(ps);
      JunkShrinks(ps, i);
      assert b == before + [ps[0].bytes[0]] + Flatten(rest);
      ScanResynchronises(b, before + [ps[0].bytes[0]], rest);
      assert Positions(b, i) == Positions(b, i + 1);
    }
  }

  /** The pieces without the first byte of their leading junk. */
  function Shorter(ps: seq<Piece>): seq<Piece>
    requires ps != [] && ps[0].Junk? && ps[0].bytes != []
  {
    [Junk(ps[0].bytes[1..])] + ps[1..]
  }

  lemma JunkShrinks(ps: seq<Piece>, base: nat)
    requires Framed(ps) && ps != [] && ps[0].Junk? && ps[0].bytes != []
    ensures Framed(Shorter(ps)) && Flatten(ps) == [ps[0].bytes[0]] + Flatten(Shorter(ps))
    ensures FrameOffsets(Shorter(ps), base + 1) == FrameOffsets(ps, base)
    ensures forall p :: JunkAt(ps, base, p) <==> p == base || JunkAt(Shorter(ps), base + 1, p)
  {
    var x, tail := ps[0].bytes[0], ps[0].bytes[1..];
    assert Shorter(ps)[1..] == ps[1..];
    assert ps[0].bytes == [x] + tail;
    assert [x] + tail + Flatten(ps[1..]) == [x] + (tail + Flatten(ps[1..]));
  }

  lemma FrameInside(b: Bytes, before: Bytes, f: Bytes, after: Bytes)
    requires |f| == FRAME && HeaderAt(f, 0) && b == before + f + after
    ensures HeaderAt(b, |before|)
    ensures b[|before| + LINE_HDR..|before| + FRAME] == f[LINE_HDR..]
  {
    assert forall k | 0 <= k < FRAME :: b[|before| + k] == f[k];
  }

  lemma ScanTakesFrame(b: Bytes, before: Bytes, ps: seq<Piece>)
    requires Framed(ps) && ps != [] && ps[0].Line? && b == before + Flatten(ps)
    ensures |ps[0].bytes| == FRAME && HeaderAt(b, |before|) && b == before + ps[0].bytes + Flatten(ps[1..])
    ensures Framed(ps[1..]) && |Flatten(ps[1..])| < |Flatten(ps)|
    ensures b[|before| + LINE_HDR..|before| + FRAME] == ps[0].bytes[LINE_HDR..]
  {
    var f := ps[0].bytes;
    assert |f| == FRAME && HeaderAt(f, 0);
    assert Flatten(ps) == f + Flatten(ps[1..]);
    assert b == before + f + Flatten(ps[1..]);
    FrameInside(b, before, f, Flatten(ps[1..]));
  }

  /** The rows of the frames themselves. */
  function FrameRows(ps: seq<Piece>): seq<Bytes>
    requires Framed(ps)
  {
    if ps == [] then []
    else if ps[0].Line? then [Descrambled(ps[0].bytes[LINE_HDR..])[..IMAGE_WIDTH]] + FrameRows(ps[1..])
    else FrameRows(ps[1..])
  }

  lemma {:induction false} RowsOfFrames(b: Bytes, before: Bytes, ps: seq<Piece>)
    requires Framed(ps) && b == before + Flatten(ps)
    ensures forall k | 0 <= k < |FrameOffsets(ps, |before|)| :: FrameOffsets(ps, |before|)[k] + FRAME <= |b|
    ensures RowsAt(b, FrameOffsets(ps, |before|)) == FrameRows(ps)
    decreases |ps|
  {
    if ps != [] {
      assert before + (ps[0].bytes + Flatten(ps[1..])) == (before + ps[0].bytes) + Flatten(ps[1..]);
      RowsOfFrames(b, before + ps[0].bytes, ps[1..]);
      if ps[0].Line? { RowsOfLine(b, before, ps); }
    }
  }

  lemma RowsOfLine(b: Bytes, before: Bytes, ps: seq<Piece>)
    requires Framed(ps) && ps != [] && ps[0].Line? && b == before + Flatten(ps)
    requires var offsets := FrameOffsets(ps[1..], |before| + |ps[0].bytes|);
             (forall k | 0 <= k < |offsets| :: offsets[k] + FRAME <= |b|) && RowsAt(b, offsets) == FrameRows(ps[1..])
    ensures forall k | 0 <= k < |FrameOffsets(ps, |before|)| :: FrameOffsets(ps, |before|)[k] + FRAME <= |b|
    ensures RowsAt(b, FrameOffsets(ps, |before|)) == FrameRows(ps)
  {
    ScanTakesFrame(b, before, ps);
    var offsets := FrameOffsets(ps[1..], |before| + FRAME);
    assert FrameOffsets(ps, |before|) == [|before|] + offsets;
    RowsAtCons(b, |before|, offsets);
  }

  /** A buffer of frames and junk is scanned to exactly the framed rows, in order, when no junk looks like a header. */
  lemma FramedBufferScans(ps: seq<Piece>)
    requires Framed(ps) && NoJunkHeader(Flatten(ps), ps, 0)
    ensures Scan(Flatten(ps)) == FrameRows(ps)
  {
    var b := Flatten(ps);
    assert b == [] + b;
    ScanResynchronises(b, [], ps);
    RowsOfFrames(b, [], ps);
  }
}
