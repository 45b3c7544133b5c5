/** The image on its way from the harvested dump through the PGM file to the socket frame. */
module Handoff {
  import opened Base
  import opened Text
  import Bridge

  datatype Image = Image(width: int, height: int, data: Bytes)

  // ---- The dump ---------------------------------------------------------------------------

  predicate Plausible(a: nat, b: nat) { 0 < a <= 5000 && 0 < b <= 20000 && a * b <= 4_000_000 }

  function Dump(a: nat, b: nat, px: Bytes): (d: Bytes)
    ensures |d| == 8 + |px|
  {
    U32Little(a) + U32Little(b) + px
  }

  class AssembledHarvester {
    var file: Bytes
    var n: nat

    constructor ()
      ensures file == [] && n == 0
    {
      file, n := [], 0;
    }

    /** A hit with an image of plausible size replaces the dump; any other leaves it alone. */
    method Stop(img: nat, a: nat, b: nat, mem: nat -> byte)
      modifies this
      ensures img != 0 && Plausible(a, b) ==>
                n == old(n) + 1 && file == Dump(a, b, Memory(mem, img, a * b))
      ensures !(img != 0 && Plausible(a, b)) ==> n == old(n) && file == old(file)
    {
      if img == 0 {
        return;
      }
      if !(0 < a <= 5000 && 0 < b <= 20000 && a * b <= 4_000_000) {
        return;
      }
      var px := Memory(mem, img, a * b);
      file := U32Little(a) + U32Little(b) + px;
      n := n + 1;
    }
  }

  // ---- The PGM file -----------------------------------------------------------------------

  /** "P5", white space, "255". */
  const MAGIC: Bytes := [80, 53]
  const MAXVAL: Bytes := [50, 53, 53]

  function Dimensions(w: nat, h: nat): Bytes { Digits(w) + [SPACE] + Digits(h) }

  function Pgm(w: nat, h: nat, px: Bytes): Bytes {
    MAGIC + [NEWLINE] + (Dimensions(w, h) + [NEWLINE] + (MAXVAL + [NEWLINE] + px))
  }

  /** `d[8:8 + w * h]`. */
  function Pixels(d: Bytes, w: nat, h: nat): Bytes
    requires |d| >= 8
  {
    if 8 + w * h < |d| then d[8..8 + w * h] else d[8..]
  }

  /** The two numbers at the head of a dump. */
  function DumpSize(d: Bytes): (nat, nat)
    requires |d| >= 8
  {
    (FromU32Little(d[..4]), FromU32Little(d[4..8]))
  }

  /** The conversion of the capture tool; a dump under 16 bytes means no finger. */
  function Convert(d: Bytes): Result<Bytes> {
    if |d| < 16 then Err("no finger captured")
    else
      var (w, h) := DumpSize(d);
      Ok(Pgm(w, h, Pixels(d, w, h)))
  }

  /** `f.read(n)`: everything when n is negative. */
  function Read(b: Bytes, n: int): Bytes {
    if n < 0 || n > |b| then b else b[..n]
  }

  // ---- The bridge's reader ----------------------------------------------------------------

  function BridgeRead(file: Bytes): Result<Image> {
    if Strip(FirstLine(file)) != MAGIC then Err("assertion failed")
    else
      var tok := Split(FirstLine(AfterLine(file)));
      if |tok| != 2 || ParseInt(tok[0]).None? || ParseInt(tok[1]).None? then Err("bad dimensions")
      else
        var w, h := ParseInt(tok[0]).value, ParseInt(tok[1]).value;
        Ok(Image(w, h, Read(AfterLine(AfterLine(AfterLine(file))), w * h)))
  }

  // ---- The matcher's reader ---------------------------------------------------------------

  predicate IsComment(line: Bytes) { line != [] && line[0] == HASH }

  /** White-space tokens left in the header lines of `b` that are not comments. */
  function TokensLeft(b: Bytes): nat
    decreases |b|
  {
    if b == [] then 0
    else (if IsComment(FirstLine(b)) then 0 else |Split(FirstLine(b))|) + TokensLeft(AfterLine(b))
  }

  /** The header tokens and the bytes after the line that completed them. */
  function Header(b: Bytes, tok: seq<Bytes>): (r: (seq<Bytes>, Bytes))
    requires |tok| + TokensLeft(b) >= 3
    ensures |r.0| >= 3
    decreases |b|
  {
    if |tok| >= 3 then (tok, b)
    else if IsComment(FirstLine(b)) then Header(AfterLine(b), tok)
    else Header(AfterLine(b), tok + Split(FirstLine(b)))
  }

  function MatchRead(file: Bytes): Result<Image>
    requires Strip(FirstLine(file)) == MAGIC ==> TokensLeft(AfterLine(file)) >= 3
  {
    if Strip(FirstLine(file)) != MAGIC then Err("not a binary PGM (P5)")
    else
      var (tok, rest) := Header(AfterLine(file), []);
      if ParseInt(tok[0]).None? || ParseInt(tok[1]).None? then Err("invalid literal for int()")
      else
        var w, h := ParseInt(tok[0]).value, ParseInt(tok[1]).value;
        Ok(Image(w, h, Read(rest, w * h)))
  }

  /** At the end of the file the loop would read empty lines for ever, so the header has to be complete. */
  method ReadPgm(file: Bytes) returns (r: Result<Image>)
    requires Strip(FirstLine(file)) == MAGIC ==> TokensLeft(AfterLine(file)) >= 3
    ensures r == MatchRead(file)
  {
    if Strip(FirstLine(file)) != MAGIC {
      return Err("not a binary PGM (P5)");
    }
    var rest, tok: seq<Bytes> := AfterLine(file), [];
    while |tok| < 3
      invariant |tok| + TokensLeft(rest) >= 3
      invariant Header(rest, tok) == Header(AfterLine(file), [])
      decreases |rest|
    {
      var line := FirstLine(rest);
      rest := AfterLine(rest);
      if !IsComment(line) {
        tok := tok + Split(line);
      }
    }
    if ParseInt(tok[0]).None? || ParseInt(tok[1]).None? {
      return Err("invalid literal for int()");
    }
    var w, h := ParseInt(tok[0]).value, ParseInt(tok[1]).value;
    return Ok(Image(w, h, Read(rest, w * h)));
  }

  // ---- The socket frame -------------------------------------------------------------------

  predicate FitsInt32(n: int) { -0x8000_0000 <= n < 0x8000_0000 }

  /** `struct.pack("<ii", w, h) + data`. */
  function SocketFrame(img: Image): Result<Bytes> {
    if !FitsInt32(img.width) || !FitsInt32(img.height) then Err("argument out of range")
    else Ok(U32Little(img.width % 0x1_0000_0000) + U32Little(img.height % 0x1_0000_0000) + img.data)
  }

  /** What the bridge does with a capture's file: a scan under `MIN_ROWS` rows is refused. */
  function Forward(pgm: Bytes): Result<Bytes> {
    match BridgeRead(pgm)
    case Err(e) => Err(e)
    case Ok(img) => if img.height < Bridge.MIN_ROWS then Err("tiny scan") else SocketFrame(img)
  }

  /** From the dump over the file to the socket. */
  function SendDump(d: Bytes): Result<Bytes> {
    match Convert(d)
    case Err(e) => Err(e)
    case Ok(pgm) => Forward(pgm)
  }

  // ---- Round trips ------------------------------------------------------------------------

  lemma DigitsAreToken(n: nat)
    ensures IsToken(Digits(n)) && NoNewline(Digits(n))
  {
    assert forall k | 0 <= k < |Digits(n)| :: IsDigit(Digits(n)[k]);
  }

  lemma DimensionsLine(w: nat, h: nat)
    ensures NoNewline(Dimensions(w, h)) && !IsComment(Dimensions(w, h) + [NEWLINE])
    ensures Split(Dimensions(w, h) + [NEWLINE]) == [Digits(w), Digits(h)]
  {
    DigitsAreToken(w);
    DigitsAreToken(h);
    assert IsDigit(Digits(w)[0]);
    assert Dimensions(w, h) + [NEWLINE] == Digits(w) + [SPACE] + (Digits(h) + [NEWLINE] + []);
    SplitsToken(Digits(w), SPACE, Digits(h) + [NEWLINE] + []);
    SplitsToken(Digits(h), NEWLINE, []);
  }

  lemma MaxvalLine()
    ensures NoNewline(MAXVAL) && !IsComment(MAXVAL + [NEWLINE])
    ensures Split(MAXVAL + [NEWLINE]) == [MAXVAL]
  {
    assert MAXVAL + [NEWLINE] == MAXVAL + [NEWLINE] + [];
    SplitsToken(MAXVAL, NEWLINE, []);
  }

  lemma MagicLine()
    ensures NoNewline(MAGIC) && Strip(MAGIC + [NEWLINE]) == MAGIC
  {
    var b := MAGIC + [NEWLINE];
    assert b[..|b| - 1] == MAGIC;
  }

  /** The file as bytes: P5, the two sizes and 255 as text, and the pixels. */
  lemma PgmBytes(px: Bytes)
    ensures Pgm(7, 120, px) == [80, 53, 10, 55, 32, 49, 50, 48, 10, 50, 53, 53, 10] + px
  {
    assert Digits(12) == Digits(1) + [50] && Digits(120) == Digits(12) + [48];
    assert Dimensions(7, 120) == [55, 32, 49, 50, 48];
  }

  lemma Area(w: nat, h: nat)
    ensures w * h >= 0
  {
  }

  /** The bridge gets the image back, pixels that look like newlines included; missing pixels go unnoticed. */
  lemma BridgeReadsPgm(w: nat, h: nat, px: Bytes)
    ensures BridgeRead(Pgm(w, h, px)) == Ok(Image(w, h, if |px| > w * h then px[..w * h] else px))
  {
    MagicLine();
    DimensionsLine(w, h);
    MaxvalLine();
    ReadsLine(MAGIC, Dimensions(w, h) + [NEWLINE] + (MAXVAL + [NEWLINE] + px));
    ReadsLine(Dimensions(w, h), MAXVAL + [NEWLINE] + px);
    ReadsLine(MAXVAL, px);
    ParseIntInverts(w);
    ParseIntInverts(h);
    Area(w, h);
    assert px[..|px|] == px;
  }

  /** Neither reader takes another magic for P5. */
  lemma OtherMagicRefused(x: byte, rest: Bytes)
    requires x != 53 && x != NEWLINE
    ensures var file := [80, x, NEWLINE] + rest;
            BridgeRead(file).Err? && Strip(FirstLine(file)) != MAGIC && MatchRead(file).Err?
  {
    var line: Bytes := [80, x];
    assert [80, x, NEWLINE] + rest == line + [NEWLINE] + rest;
    ReadsLine(line, rest);
    var b := line + [NEWLINE];
    assert b[..|b| - 1] == line && line[..1] == [80];
    assert Strip(b) == Strip(line);
    assert Strip([80]) == [80];
    assert line[1] != MAGIC[1];
  }

  /** With all three numbers on one line the matcher reads the image and the bridge refuses it. */
  lemma OneLineHeader(w: nat, h: nat, px: Bytes)
    requires |px| == w * h
    ensures var file := MAGIC + [NEWLINE] + (Dimensions(w, h) + [SPACE] + MAXVAL + [NEWLINE] + px);
            && BridgeRead(file) == Err("bad dimensions")
            && Strip(FirstLine(file)) == MAGIC && TokensLeft(AfterLine(file)) >= 3
            && MatchRead(file) == Ok(Image(w, h, px))
  {
    var line := Dimensions(w, h) + [SPACE] + MAXVAL;
    MagicLine();
    ReadsLine(MAGIC, line + [NEWLINE] + px);
    ThreeTokens(w, h);
    ReadsLine(line, px);
    HeaderTakesLine(line, px, []);
    assert [] + [Digits(w), Digits(h), MAXVAL] == [Digits(w), Digits(h), MAXVAL];
    ParseIntInverts(w);
    ParseIntInverts(h);
    assert px[..|px|] == px;
  }

  lemma ThreeTokens(w: nat, h: nat)
    ensures var line := Dimensions(w, h) + [SPACE] + MAXVAL;
            && NoNewline(line) && !IsComment(line + [NEWLINE])
            && Split(line + [NEWLINE]) == [Digits(w), Digits(h), MAXVAL]
  {
    var line := Dimensions(w, h) + [SPACE] + MAXVAL;
    DigitsAreToken(w);
    DigitsAreToken(h);
    MaxvalLine();
    assert IsDigit(Digits(w)[0]);
    assert line + [NEWLINE] == Digits(w) + [SPACE] + (Digits(h) + [SPACE] + (MAXVAL + [NEWLINE]));
    SplitsToken(Digits(w), SPACE, Digits(h) + [SPACE] + (MAXVAL + [NEWLINE]));
    SplitsToken(Digits(h), SPACE, MAXVAL + [NEWLINE]);
  }

  /** Comment lines, each "#", some text, and a newline. */
  function Comments(cs: seq<Bytes>): Bytes {
    if cs == [] then [] else [HASH] + cs[0] + [NEWLINE] + Comments(cs[1..])
  }

  predicate OneLiners(cs: seq<Bytes>) { forall k | 0 <= k < |cs| :: NoNewline(cs[k]) }

  lemma {:induction false} CommentsAreSkipped(cs: seq<Bytes>, rest: Bytes, tok: seq<Bytes>)
    requires OneLiners(cs) && |tok| < 3
    ensures TokensLeft(Comments(cs) + rest) == TokensLeft(rest)
    ensures |tok| + TokensLeft(rest) >= 3 ==> Header(Comments(cs) + rest, tok) == Header(rest, tok)
    decreases |cs|
  {
    if cs == [] {
      assert Comments(cs) + rest == rest;
    } else {
      var line, tail := [HASH] + cs[0], Comments(cs[1..]) + rest;
      assert NoNewline(line) by { assert NoNewline(cs[0]); }
      assert Comments(cs) + rest == line + [NEWLINE] + tail;
      ReadsLine(line, tail);
      CommentsAreSkipped(cs[1..], rest, tok);
    }
  }

  lemma HeaderTakesLine(line: Bytes, rest: Bytes, tok: seq<Bytes>)
    requires NoNewline(line) && !IsComment(line + [NEWLINE])
    ensures TokensLeft(line + [NEWLINE] + rest) == |Split(line + [NEWLINE])| + TokensLeft(rest)
    ensures |tok| < 3 && |tok| + TokensLeft(line + [NEWLINE] + rest) >= 3 ==>
              Header(line + [NEWLINE] + rest, tok) == Header(rest, tok + Split(line + [NEWLINE]))
  {
    ReadsLine(line, rest);
    assert line + [NEWLINE] + rest != [];
  }

  /** A PGM with any comment lines after the magic and after the dimensions. */
  function CommentedPgm(w: nat, h: nat, px: Bytes, first: seq<Bytes>, second: seq<Bytes>): Bytes {
    MAGIC + [NEWLINE] + (Comments(first)
                         + (Dimensions(w, h) + [NEWLINE] + (Comments(second) + (MAXVAL + [NEWLINE] + px))))
  }

  lemma HeaderOfCommentedPgm(w: nat, h: nat, px: Bytes, first: seq<Bytes>, second: seq<Bytes>)
    requires OneLiners(first) && OneLiners(second)
    ensures var body := Comments(first)
                        + (Dimensions(w, h) + [NEWLINE] + (Comments(second) + (MAXVAL + [NEWLINE] + px)));
            TokensLeft(body) >= 3 && Header(body, []) == ([Digits(w), Digits(h), MAXVAL], px)
  {
    var last := MAXVAL + [NEWLINE] + px;
    var middle := Dimensions(w, h) + [NEWLINE] + (Comments(second) + last);
    var dims := [Digits(w), Digits(h)];
    DimensionsLine(w, h);
    MaxvalLine();
    HeaderTakesLine(MAXVAL, px, dims);
    CommentsAreSkipped(second, last, dims);
    HeaderTakesLine(Dimensions(w, h), Comments(second) + last, []);
    CommentsAreSkipped(first, middle, []);
    assert [] + dims == dims && dims + [MAXVAL] == [Digits(w), Digits(h), MAXVAL];
  }

  /** The matcher's reader ignores the comments and gets the same image. */
  lemma MatchReadsCommentedPgm(w: nat, h: nat, px: Bytes, first: seq<Bytes>, second: seq<Bytes>)
    requires OneLiners(first) && OneLiners(second)
    ensures var file := CommentedPgm(w, h, px, first, second);
            && Strip(FirstLine(file)) == MAGIC && TokensLeft(AfterLine(file)) >= 3
            && MatchRead(file) == Ok(Image(w, h, if |px| > w * h then px[..w * h] else px))
  {
    var body := Comments(first) + (Dimensions(w, h) + [NEWLINE] + (Comments(second) + (MAXVAL + [NEWLINE] + px)));
    MagicLine();
    ReadsLine(MAGIC, body);
    HeaderOfCommentedPgm(w, h, px, first, second);
    ParseIntInverts(w);
    ParseIntInverts(h);
    Area(w, h);
    assert px[..|px|] == px;
  }

  /** Without comments it is the file the capture tool writes. */
  lemma NoComments(w: nat, h: nat, px: Bytes)
    ensures CommentedPgm(w, h, px, [], []) == Pgm(w, h, px)
  {
    assert Comments([]) + (MAXVAL + [NEWLINE] + px) == MAXVAL + [NEWLINE] + px;
    var middle := Dimensions(w, h) + [NEWLINE] + (MAXVAL + [NEWLINE] + px);
    assert Comments([]) + middle == middle;
  }

  /** The limits of a plausible size, at their edges. */
  lemma PlausibleEdges()
    ensures Plausible(5000, 800) && !Plausible(5000, 801) && !Plausible(5001, 1)
    ensures Plausible(200, 20000) && !Plausible(201, 20000) && !Plausible(1, 20001)
    ensures Plausible(1, 1) && !Plausible(0, 1) && !Plausible(1, 0)
  {
  }

  /** The dump, and so the frame on the socket, byte by byte. */
  lemma DumpBytes(a: nat, b: nat, px: Bytes)
    requires Plausible(a, b)
    ensures var d := Dump(a, b, px);
            && d[0] as nat + 0x100 * d[1] as nat + 0x1_0000 * d[2] as nat + 0x100_0000 * d[3] as nat == a
            && d[4] as nat + 0x100 * d[5] as nat + 0x1_0000 * d[6] as nat + 0x100_0000 * d[7] as nat == b
            && d[8..] == px
  {
    var d, x, y := Dump(a, b, px), U32Little(a), U32Little(b);
    U32LittleRoundTrip(a);
    U32LittleRoundTrip(b);
    assert d[..4] == x && d[4..8] == y && d[8..] == px;
    assert d[0] == d[..4][0] && d[1] == d[..4][1] && d[2] == d[..4][2] && d[3] == d[..4][3];
    assert d[4] == d[4..8][0] && d[5] == d[4..8][1] && d[6] == d[4..8][2] && d[7] == d[4..8][3];
    LittleEndianSum(x);
    LittleEndianSum(y);
  }

  lemma LittleEndianSum(x: Bytes)
    requires |x| == 4
    ensures FromU32Little(x) ==
            x[0] as nat + 0x100 * x[1] as nat + 0x1_0000 * x[2] as nat + 0x100_0000 * x[3] as nat
  {
  }

  lemma DumpSizeIs(a: nat, b: nat, px: Bytes)
    requires Plausible(a, b)
    ensures DumpSize(Dump(a, b, px)) == (a, b)
  {
    var d := Dump(a, b, px);
    U32LittleRoundTrip(a);
    U32LittleRoundTrip(b);
    assert d[..4] == U32Little(a) && d[4..8] == U32Little(b);
  }

  /** The capture tool turns a dump into a PGM exactly when it has at least 8 pixels. */
  lemma ConvertsDump(a: nat, b: nat, px: Bytes)
    requires Plausible(a, b) && |px| == a * b
    ensures Convert(Dump(a, b, px)).Ok? <==> a * b >= 8
    ensures a * b >= 8 ==> Convert(Dump(a, b, px)) == Ok(Pgm(a, b, px))
  {
    DumpSizeIs(a, b, px);
    assert Dump(a, b, px)[8..] == px;
  }

  /** A dump of 16 bytes or more is converted by its sizes alone: extra pixels are cut, missing ones go unnoticed. */
  lemma ConvertsAnyDump(a: nat, b: nat, px: Bytes)
    requires a < 0x1_0000_0000 && b < 0x1_0000_0000
    ensures Convert(Dump(a, b, px)) ==
            if |px| < 8 then Err("no finger captured") else Ok(Pgm(a, b, if a * b < |px| then px[..a * b] else px))
  {
    var d := Dump(a, b, px);
    U32LittleRoundTrip(a);
    U32LittleRoundTrip(b);
    Area(a, b);
    assert d[..4] == U32Little(a) && d[4..8] == U32Little(b) && d[8..] == px;
    if a * b < |px| { SliceOfDrop(d, 8, 0, a * b); }
  }

  lemma FrameIsDump(a: nat, b: nat, px: Bytes)
    requires Plausible(a, b)
    ensures SocketFrame(Image(a, b, px)) == Ok(Dump(a, b, px))
  {
    assert a % 0x1_0000_0000 == a && b % 0x1_0000_0000 == b;
  }

  /** A converted dump shows its width, height and pixels to both readers. */
  lemma ReadersAgree(a: nat, b: nat, px: Bytes, pgm: Bytes)
    requires Plausible(a, b) && |px| == a * b && Convert(Dump(a, b, px)) == Ok(pgm)
    ensures BridgeRead(pgm) == Ok(Image(a, b, px))
    ensures Strip(FirstLine(pgm)) == MAGIC && TokensLeft(AfterLine(pgm)) >= 3 && MatchRead(pgm) == Ok(Image(a, b, px))
  {
    ConvertsDump(a, b, px);
    BridgeReadsPgm(a, b, px);
    MatchReadsCommentedPgm(a, b, px, [], []);
    NoComments(a, b, px);
  }

  lemma RowsWithinPixels(a: nat, b: nat)
    requires a > 0
    ensures b <= a * b
  {
  }

  lemma ForwardsTallDump(a: nat, b: nat, px: Bytes, pgm: Bytes)
    requires Plausible(a, b) && |px| == a * b && Convert(Dump(a, b, px)) == Ok(pgm)
    ensures Forward(pgm) == if b < 80 then Err("tiny scan") else Ok(Dump(a, b, px))
  {
    ReadersAgree(a, b, px, pgm);
    FrameIsDump(a, b, px);
  }

  /**
    A dump of plausible size reaches the socket exactly when it has at least 80 rows, and then the frame
    on the socket is the dump itself.
   */
  lemma DumpReachesSocket(a: nat, b: nat, px: Bytes)
    requires Plausible(a, b) && |px| == a * b
    ensures SendDump(Dump(a, b, px)).Ok? <==> b >= 80
    ensures b >= 80 ==> SendDump(Dump(a, b, px)) == Ok(Dump(a, b, px))
  {
    ConvertsDump(a, b, px);
    RowsWithinPixels(a, b);
    if a * b >= 8 { ForwardsTallDump(a, b, px, Pgm(a, b, px)); }
  }
}
