// The 320x200 framebuffer and the drawing primitives.
module Vga {
  import opened Wrappers
  import opened Errors
  import opened Bitmaps

  const WIDTH := 320
  const HEIGHT := 200

  ghost predicate OnScreen(px: int, py: int) { 0 <= px < 320 && 0 <= py < 200 }

  ghost predicate Frame(v: seq<Color>) { |v| == 64000 }

  ghost function Pixel(v: seq<Color>, px: int, py: int): Color
    requires Frame(v) && OnScreen(px, py)
  {
    v[py * 320 + px]
  }

  // Conversion to uint16_t.
  function Low16(x: nat): Word16 { x % 0x1_0000 }

  // How far coordinate p lies after o, counting round the 16-bit edge.
  function Offset(p: nat, o: Word16): nat
    requires p < 0x1_0000
  {
    if p >= o then p - o else p - o + 0x1_0000
  }

  /** The offset is the one distance that leads from o to p round that edge. */
  lemma OffsetLeads(p: nat, o: Word16, d: nat)
    requires p < 0x1_0000 && d < 0x1_0000
    ensures Offset(p, o) == d <==> Low16(o + d) == p
  {
  }

  /** A frame holds its pixels row by row, 320 to a row. */
  lemma PixelAddress(v: seq<Color>, i: nat)
    requires Frame(v) && i < 64000
    ensures OnScreen(i % 320, i / 320) && Pixel(v, i % 320, i / 320) == v[i]
  {
  }

  method DrawPixel(vram: array<Color>, x: Word16, y: Word16, color: Color)
    requires vram.Length == 64000
    modifies vram
    ensures forall px, py :: OnScreen(px, py) ==>
      Pixel(vram[..], px, py) == if px == x && py == y then color else old(Pixel(vram[..], px, py))
  {
    if x >= 320 || y >= 200 {
      return;
    }
    vram[y * 320 + x] := color;
    forall px, py | OnScreen(px, py)
      ensures Pixel(vram[..], px, py) == if px == x && py == y then color else old(Pixel(vram[..], px, py))
    {
      assert py * 320 + px == y * 320 + x ==> px == x && py == y;
    }
  }

  // ------------------------------------------------------------------ rectangles

  method DrawRow(vram: array<Color>, x: Word16, y: Word16, w: Word16, color: Color)
    requires vram.Length == 64000
    modifies vram
    ensures forall px, py :: OnScreen(px, py) ==>
      Pixel(vram[..], px, py) ==
      if Offset(px, x) < w && py == y then color else old(Pixel(vram[..], px, py))
  {
    for xoff := 0 to w
      invariant forall px, py :: OnScreen(px, py) ==>
        Pixel(vram[..], px, py) ==
        if Offset(px, x) < xoff && py == y then color else old(Pixel(vram[..], px, py))
    {
      DrawPixel(vram, Low16(x + xoff), y, color);
    }
  }

  /** Fills exactly the rectangle; coordinates wrap at 16 bits and are then clipped. */
  method DrawRect(vram: array<Color>, x: Word16, y: Word16, w: Word16, h: Word16, color: Color)
    requires vram.Length == 64000
    modifies vram
    ensures forall px, py :: OnScreen(px, py) ==>
      Pixel(vram[..], px, py) ==
      if Offset(px, x) < w && Offset(py, y) < h then color else old(Pixel(vram[..], px, py))
  {
    for yoff := 0 to h
      invariant forall px, py :: OnScreen(px, py) ==>
        Pixel(vram[..], px, py) ==
        if Offset(px, x) < w && Offset(py, y) < yoff then color else old(Pixel(vram[..], px, py))
    {
      DrawRow(vram, x, Low16(y + yoff), w, color);
    }
  }

  // ------------------------------------------------------------------ bitmaps

  // The eight pixels of one byte, those past the width skipped.
  method DrawByte(vram: array<Color>, x: Word16, y: Word16, w: Word16, byte: nat, scanByte: bv8, bg: Color, fg: Color)
    requires vram.Length == 64000 && byte * 8 < 0x1_0000
    modifies vram
    ensures forall px, py :: OnScreen(px, py) ==>
      Pixel(vram[..], px, py) ==
      var d := Offset(px, x);
      if py == y && d / 8 == byte && d < w then (if BitSet(scanByte, d % 8) then fg else bg)
      else old(Pixel(vram[..], px, py))
  {
    for bit := 0 to 8
      invariant forall px, py :: OnScreen(px, py) ==>
        Pixel(vram[..], px, py) ==
        var d := Offset(px, x);
        if py == y && d / 8 == byte && d % 8 < bit && d < w then (if BitSet(scanByte, d % 8) then fg else bg)
        else old(Pixel(vram[..], px, py))
    {
      var xoff := byte * 8 + bit;
      if xoff >= w {
        continue;
      }
      DrawPixel(vram, Low16(x + xoff), y, if BitSet(scanByte, bit) then fg else bg);
    }
  }

  // One line of the bitmap.
  method DrawLine(vram: array<Color>, x: Word16, y: Word16, w: Word16, line: nat, bitmap: seq<bv8>,
                  bg: Color, fg: Color)
    requires vram.Length == 64000 && (line + 1) * BytesPerLine(w) <= |bitmap|
    modifies vram
    ensures forall px, py :: OnScreen(px, py) ==>
      Pixel(vram[..], px, py) ==
      var d := Offset(px, x);
      if py == y && d < w then Ink(bitmap, w, d, line, bg, fg) else old(Pixel(vram[..], px, py))
  {
    for byte := 0 to BytesPerLine(w)
      invariant forall px, py :: OnScreen(px, py) ==>
        Pixel(vram[..], px, py) ==
        var d := Offset(px, x);
        if py == y && d < w && d / 8 < byte then Ink(bitmap, w, d, line, bg, fg) else old(Pixel(vram[..], px, py))
    {
      DrawByte(vram, x, y, w, byte, bitmap[line * BytesPerLine(w) + byte], bg, fg);
    }
  }

  // `now` is `before` with the picture at (x, y): its points in the two colours.
  ghost predicate Displays(now: seq<Color>, before: seq<Color>, x: Word16, y: Word16, pic: Picture,
                           bg: Color, fg: Color)
    requires Frame(now) && Frame(before) && pic.Valid()
  {
    forall px, py :: OnScreen(px, py) ==>
      Pixel(now, px, py) ==
      var dx, dy := Offset(px, x), Offset(py, y);
      if dx < pic.width && dy < |pic.rows| then (if pic.At(dx, dy) then fg else bg) else Pixel(before, px, py)
  }

  /** Shows the bitmap at (x, y) and nothing anywhere else; coordinates wrap at 16 bits
      and are then clipped. The bitmap of a picture shows the picture, and a null bitmap
      draws nothing. */
  method DrawBitmap(vram: array<Color>, x: Word16, y: Word16, w: Word16, h: Word16, bitmap: Option<seq<bv8>>,
                    bg: Color, fg: Color) returns (err: Error)
    requires vram.Length == 64000
    requires bitmap.Some? ==> h * BytesPerLine(w) <= |bitmap.value|
    modifies vram
    ensures err == if bitmap.None? then InvalidArgument else NoError
    ensures forall px, py :: OnScreen(px, py) ==>
      Pixel(vram[..], px, py) ==
      var dx, dy := Offset(px, x), Offset(py, y);
      if bitmap.Some? && dx < w && dy < h then Ink(bitmap.value, w, dx, dy, bg, fg)
      else old(Pixel(vram[..], px, py))
    ensures forall pic :: bitmap.Some? && Depicts(bitmap.value, pic) && pic.width == w && |pic.rows| == h ==>
      Displays(vram[..], old(vram[..]), x, y, pic, bg, fg)
  {
    hide Ink, Pixel, BytesPerLine, Displays, PackRows;
    ghost var b0 := vram[..];
    if bitmap.None? {
      return InvalidArgument;
    }
    for yoff := 0 to h
      invariant forall px, py :: OnScreen(px, py) ==>
        Pixel(vram[..], px, py) ==
        var dx, dy := Offset(px, x), Offset(py, y);
        if dx < w && dy < yoff then Ink(bitmap.value, w, dx, dy, bg, fg)
        else old(Pixel(vram[..], px, py))
    {
      LinesBefore(yoff, h, BytesPerLine(w));
      DrawLine(vram, x, Low16(y + yoff), w, yoff, bitmap.value, bg, fg);
    }
    forall pic | Depicts(bitmap.value, pic) && pic.width == w && |pic.rows| == h
      ensures Displays(vram[..], b0, x, y, pic, bg, fg)
    {
      DisplaysPicture(vram[..], b0, x, y, bitmap.value, pic, bg, fg);
    }
    return NoError;
  }

  lemma DisplaysPicture(now: seq<Color>, before: seq<Color>, x: Word16, y: Word16, bitmap: seq<bv8>, pic: Picture,
                        bg: Color, fg: Color)
    requires Frame(now) && Frame(before) && Depicts(bitmap, pic)
    requires forall px, py :: OnScreen(px, py) ==>
      Pixel(now, px, py) ==
      var dx, dy := Offset(px, x), Offset(py, y);
      if dx < pic.width && dy < |pic.rows| then Ink(bitmap, pic.width, dx, dy, bg, fg) else Pixel(before, px, py)
    ensures Displays(now, before, x, y, pic, bg, fg)
  {
    hide Ink, Pixel, Offset;
    forall px, py | OnScreen(px, py)
      ensures var dx, dy := Offset(px, x), Offset(py, y);
        dx < pic.width && dy < |pic.rows| ==> Pixel(now, px, py) == if pic.At(dx, dy) then fg else bg
    {
      if Offset(px, x) < pic.width && Offset(py, y) < |pic.rows| {
        InkOfPicture(bitmap, pic, Offset(px, x), Offset(py, y), bg, fg);
      }
    }
  }

  lemma LinesBefore(line: nat, h: nat, bytes: nat)
    requires line < h
    ensures (line + 1) * bytes <= h * bytes
  {
  }
}
