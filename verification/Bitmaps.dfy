// Bitmaps: pictures packed eight points to a byte, the leftmost in the highest bit.
module Bitmaps {
  type Word16 = x: nat | x < 0x1_0000
  type Color = x: nat | x < 256

  // ------------------------------------------------------------------ as they are read

  // Bit number `bit` of a byte, counted from the left.
  predicate BitSet(b: bv8, bit: nat)
    requires bit < 8
  {
    b & ((1 as bv8) << (7 - bit)) != 0
  }

  function BytesPerLine(w: nat): nat { if w % 8 != 0 then w / 8 + 1 else w / 8 }

  /** The colour a bitmap of width w has at (dx, dy). */
  function Ink(bitmap: seq<bv8>, w: nat, dx: nat, dy: nat, bg: Color, fg: Color): Color {
    var i := dy * BytesPerLine(w) + dx / 8;
    if i < |bitmap| && BitSet(bitmap[i], dx % 8) then fg else bg
  }

  // ------------------------------------------------------------------ as they are drawn up

  type Row = seq<bool>

  /** A picture: rows of points, set or not. */
  datatype Picture = Picture(width: Word16, rows: seq<Row>)
  {
    predicate Valid() { |rows| < 0x1_0000 && forall i :: 0 <= i < |rows| ==> |rows[i]| == width }

    predicate At(dx: nat, dy: nat)
      requires Valid() && dx < width && dy < |rows|
    {
      rows[dy][dx]
    }
  }

  function PackByte(p: Row): bv8
    requires |p| == 8
  {
    (if p[0] then 0x80 else 0) | (if p[1] then 0x40 else 0) | (if p[2] then 0x20 else 0) | (if p[3] then 0x10 else 0)
    | (if p[4] then 0x08 else 0) | (if p[5] then 0x04 else 0) | (if p[6] then 0x02 else 0) | (if p[7] then 0x01 else 0)
  }

  // Eight points a byte, the last byte filled up.
  function PackRow(row: Row): seq<bv8> {
    if row == [] then []
    else if |row| < 8 then [PackByte(row + seq(8 - |row|, _ => false))]
    else [PackByte(row[..8])] + PackRow(row[8..])
  }

  // Row after row.
  function PackRows(rows: seq<Row>): seq<bv8> {
    if rows == [] then [] else PackRow(rows[0]) + PackRows(rows[1..])
  }

  /** A bitmap that starts with the bytes of the picture. */
  ghost predicate Depicts(bitmap: seq<bv8>, pic: Picture) {
    pic.Valid() && PackRows(pic.rows) <= bitmap
  }

  // ------------------------------------------------------------------ reading what was packed

  lemma PackedBit(p: Row, k: nat)
    requires |p| == 8 && k < 8
    ensures BitSet(PackByte(p), k) <==> p[k]
  {
    var b := PackByte(p);
    BitMasks();
    match k
    case 0 => assert b & 0x80 != 0 <==> p[0];
    case 1 => assert b & 0x40 != 0 <==> p[1];
    case 2 => assert b & 0x20 != 0 <==> p[2];
    case 3 => assert b & 0x10 != 0 <==> p[3];
    case 4 => assert b & 0x08 != 0 <==> p[4];
    case 5 => assert b & 0x04 != 0 <==> p[5];
    case 6 => assert b & 0x02 != 0 <==> p[6];
    case 7 => assert b & 0x01 != 0 <==> p[7];
  }

  lemma BitMasks()
    ensures (1 as bv8) << 7 == 0x80 && (1 as bv8) << 6 == 0x40 && (1 as bv8) << 5 == 0x20 && (1 as bv8) << 4 == 0x10
    ensures (1 as bv8) << 3 == 0x08 && (1 as bv8) << 2 == 0x04 && (1 as bv8) << 1 == 0x02 && (1 as bv8) << 0 == 0x01
  {
  }

  lemma NextByte(w: nat)
    requires w >= 8
    ensures BytesPerLine(w) == 1 + BytesPerLine(w - 8)
    ensures w / 8 == 1 + (w - 8) / 8 && w % 8 == (w - 8) % 8
  {
  }

  lemma {:induction false} PackedRow(row: Row, dx: nat)
    requires dx < |row|
    ensures |PackRow(row)| == BytesPerLine(|row|) && dx / 8 < |PackRow(row)|
    ensures BitSet(PackRow(row)[dx / 8], dx % 8) <==> row[dx]
    decreases |row|
  {
    hide BitSet, PackByte, BytesPerLine;
    if |row| < 8 {
      OneByte(|row|);
      PackedBit(row + seq(8 - |row|, _ => false), dx);
    } else {
      RowLength(row[8..]);
      NextByte(|row|);
      if dx < 8 {
        PackedBit(row[..8], dx);
      } else {
        NextByte(dx);
        PackedRow(row[8..], dx - 8);
      }
    }
  }

  lemma OneByte(w: nat)
    requires 0 < w < 8
    ensures BytesPerLine(w) == 1
  {
  }

  lemma {:induction false} RowLength(row: Row)
    ensures |PackRow(row)| == BytesPerLine(|row|)
    decreases |row|
  {
    if |row| >= 8 {
      RowLength(row[8..]);
      NextByte(|row|);
    }
  }

  lemma {:induction false} PackedRows(rows: seq<Row>, w: nat, dy: nat, i: nat)
    requires forall k :: 0 <= k < |rows| ==> |rows[k]| == w
    requires dy < |rows| && i < BytesPerLine(w)
    ensures |PackRow(rows[dy])| == BytesPerLine(w) && dy * BytesPerLine(w) + i < |PackRows(rows)|
    ensures PackRows(rows)[dy * BytesPerLine(w) + i] == PackRow(rows[dy])[i]
    decreases |rows|
  {
    hide PackRow, BytesPerLine;
    RowLength(rows[0]);
    RowLength(rows[dy]);
    if dy > 0 {
      PackedRows(rows[1..], w, dy - 1, i);
      Times(dy, BytesPerLine(w));
    }
  }

  lemma Times(n: nat, b: nat)
    requires n > 0
    ensures n * b == b + (n - 1) * b
  {
  }

  /** Reading a packed picture gives the picture back. */
  lemma InkOfPicture(bitmap: seq<bv8>, pic: Picture, dx: nat, dy: nat, bg: Color, fg: Color)
    requires Depicts(bitmap, pic) && dx < pic.width && dy < |pic.rows|
    ensures Ink(bitmap, pic.width, dx, dy, bg, fg) == if pic.At(dx, dy) then fg else bg
  {
    hide BitSet, PackRow, PackRows, BytesPerLine;
    PackedRow(pic.rows[dy], dx);
    PackedRows(pic.rows, pic.width, dy, dx / 8);
  }

  lemma {:induction false} RowsLength(rows: seq<Row>, w: nat)
    requires forall k :: 0 <= k < |rows| ==> |rows[k]| == w
    ensures |PackRows(rows)| == |rows| * BytesPerLine(w)
    decreases |rows|
  {
    hide PackRow, BytesPerLine;
    if rows != [] {
      RowLength(rows[0]);
      RowsLength(rows[1..], w);
      Times(|rows|, BytesPerLine(w));
    }
  }
}
