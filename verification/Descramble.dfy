/** The column table of the sensor and the decoding of one line through it. */
module Descramble {
  import opened Base

  const LINE_WIDTH := 264
  const IMAGE_WIDTH := 200
  const LINE_HDR := 8
  const FRAME := 272

  const PER_ROW := 12

  /** Output column of each payload byte, twelve to a row. */
  const ROWS: seq<seq<nat>> := [
    [199, 198, 197, 196, 195, 194, 193, 192, 191, 190, 189, 188],
    [187, 186, 185, 184, 183, 182, 181, 180, 179, 178, 177, 176],
    [175, 174, 173, 172, 171, 170, 169, 168, 167, 166, 165, 164],
    [163, 162, 161, 160, 159, 158, 157, 156, 155, 154, 153, 152],
    [151, 150, 149, 148, 147, 146, 145, 144, 143, 142, 141, 140],
    [139, 138, 137, 136, 135, 134, 133, 132, 131, 130, 129, 128],
    [127, 126, 125, 124, 123, 122, 121, 120, 119, 118, 117, 116],
    [115, 114, 113, 112, 111, 110, 109, 108, 107, 106, 105, 104],
    [103, 102, 101, 100, 99, 98, 97, 96, 95, 94, 93, 92],
    [91, 90, 89, 88, 87, 86, 85, 84, 83, 82, 81, 80],
    [79, 78, 77, 76, 75, 74, 73, 72, 71, 70, 69, 68],
    [67, 66, 65, 64, 63, 62, 61, 60, 59, 58, 57, 56],
    [55, 54, 53, 52, 51, 50, 49, 48, 47, 46, 45, 44],
    [43, 42, 41, 40, 39, 38, 37, 36, 35, 34, 33, 32],
    [31, 30, 29, 28, 27, 26, 25, 24, 23, 22, 21, 20],
    [19, 18, 17, 16, 15, 14, 13, 12, 11, 10, 9, 8],
    [7, 6, 5, 4, 3, 2, 1, 0, 262, 261, 260, 259],
    [258, 257, 256, 255, 254, 253, 252, 251, 250, 249, 248, 247],
    [246, 245, 244, 243, 242, 241, 240, 239, 238, 237, 236, 235],
    [234, 233, 232, 231, 230, 229, 228, 227, 226, 225, 224, 223],
    [222, 221, 263, 220, 219, 218, 217, 216, 215, 214, 213, 212],
    [211, 210, 209, 208, 207, 206, 205, 204, 203, 202, 201, 200]
  ]

  /** The table in closed form. */
  function Column(i: nat): nat
    requires i < LINE_WIDTH
  {
    if i < 200 then 199 - i else if i <= 241 then 462 - i else if i == 242 then 263 else 463 - i
  }

  ghost predicate RowIsColumn(row: seq<nat>, r: nat) {
    |row| == PER_ROW && forall k | 0 <= k < PER_ROW && PER_ROW * r + k < LINE_WIDTH :: row[k] == Column(PER_ROW * r + k)
  }

  lemma Rows0To5()
    ensures |ROWS| == 22
    ensures forall r | 0 <= r < 6 :: RowIsColumn(ROWS[r], r)
  {
  }

  lemma Rows6To11()
    ensures |ROWS| == 22
    ensures forall r | 6 <= r < 12 :: RowIsColumn(ROWS[r], r)
  {
  }

  lemma Rows12To16()
    ensures |ROWS| == 22
    ensures forall r | 12 <= r < 17 :: RowIsColumn(ROWS[r], r)
  {
  }

  lemma Rows17To21()
    ensures |ROWS| == 22
    ensures forall r | 17 <= r < 22 :: RowIsColumn(ROWS[r], r)
  {
  }

  lemma RowsAreColumns()
    ensures |ROWS| == 22
    ensures forall r | 0 <= r < 22 :: RowIsColumn(ROWS[r], r)
  {
    Rows0To5();
    Rows6To11();
    Rows12To16();
    Rows17To21();
  }

  /** `vfs495_descramble[i]`. */
  function Table(i: nat): (c: nat)
    requires i < LINE_WIDTH
    ensures c == Column(i)
  {
    RowsAreColumns();
    assert RowIsColumn(ROWS[i / PER_ROW], i / PER_ROW);
    ROWS[i / PER_ROW][i % PER_ROW]
  }

  /** The payload byte that ends up in a column. */
  function Source(c: nat): nat
    requires c < LINE_WIDTH
  {
    if c < 200 then 199 - c else if c <= 220 then 463 - c else if c <= 262 then 462 - c else 242
  }

  /** The table is a permutation of the columns: every column is written exactly once. */
  lemma TableIsBijection()
    ensures forall i | 0 <= i < LINE_WIDTH :: Table(i) < LINE_WIDTH && Source(Table(i)) == i
    ensures forall c | 0 <= c < LINE_WIDTH :: Source(c) < LINE_WIDTH && Table(Source(c)) == c
  {
  }

  /** A line in column order. */
  function Descrambled(px: Bytes): (d: Bytes)
    requires |px| == LINE_WIDTH
    ensures |d| == LINE_WIDTH
  {
    seq(LINE_WIDTH, c requires 0 <= c < LINE_WIDTH => px[Source(c)])
  }

  /** Gathering through the table gives the payload back, so no two payloads give the same line. */
  lemma DescrambleInverts(px: Bytes)
    requires |px| == LINE_WIDTH
    ensures seq(LINE_WIDTH, i requires 0 <= i < LINE_WIDTH => Descrambled(px)[Table(i)]) == px
  {
    TableIsBijection();
  }

  /** The main-image columns are the first 200 payload bytes, backwards. */
  lemma MainImageIsReversed(px: Bytes)
    requires |px| == LINE_WIDTH
    ensures forall x | 0 <= x < IMAGE_WIDTH :: Descrambled(px)[..IMAGE_WIDTH][x] == px[IMAGE_WIDTH - 1 - x]
  {
  }

  /** The test a line has to pass besides its first bytes: 8-bit mode in the low half of byte 6. */
  predicate EightBit(mode: byte) { mode % 16 == 8 }

  /** Putting each payload byte at its column fills every column, and with the byte it belongs to. */
  lemma ScatteredIsDescrambled(out: Bytes, payload: Bytes)
    requires |out| == LINE_WIDTH && |payload| == LINE_WIDTH
    requires forall k | 0 <= k < LINE_WIDTH :: out[Column(k)] == payload[k]
    ensures out == Descrambled(payload)
  {
    forall c | 0 <= c < LINE_WIDTH ensures out[c] == Descrambled(payload)[c] {
      assert Column(Source(c)) == c;
    }
  }

  /**
    Decodes the line at `off`, of which `len` bytes are available.  The output depends on this line
    alone, whatever the buffer held before; a refused line leaves the buffer as it was.
   */
  method DecodeLine(b: array<byte>, off: nat, len: nat, out: array<byte>) returns (ok: bool)
    requires off + len <= b.Length && out.Length == LINE_WIDTH && out != b
    modifies out
    ensures ok <==> len >= FRAME && EightBit(b[off + 6])
    ensures ok ==> out[..] == Descrambled(b[off + LINE_HDR..off + FRAME])
    ensures !ok ==> out[..] == old(out[..])
  {
    if len < LINE_HDR + LINE_WIDTH {
      return false;
    }
    if b[off + 6] % 16 != 8 {
      return false;
    }
    var px := off + LINE_HDR;
    for i := 0 to LINE_WIDTH
      invariant forall k | 0 <= k < i :: out[Column(k)] == b[px + k]
    {
      out[Table(i)] := b[px + i];
    }
    ghost var payload := b[px..px + LINE_WIDTH];
    assert forall k | 0 <= k < LINE_WIDTH :: payload[k] == b[px + k];
    ScatteredIsDescrambled(out[..], payload);
    return true;
  }
}
