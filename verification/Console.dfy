// Text on the framebuffer: the cursor and what each character draws.
module Console {
  import Arithmetic
  import opened Wrappers
  import opened Errors
  import Strings
  import opened Bitmaps
  import opened Vga

  datatype Font = Font(width: Word16, height: Word16, byteWidth: Word16, charCount: Word16, data: seq<bv8>)
  {
    function GlyphSize(): nat { byteWidth * height }

    ghost predicate Valid() {
      && 0 < width <= 320 && 0 < height <= 200 && byteWidth == BytesPerLine(width)
      && charCount > 0 && |data| >= GlyphSize() * charCount
    }

    // Where the glyph of c starts: characters far past the end fall back to the first.
    function Address(c: int): int { if c > charCount then 0 else GlyphSize() * c }

    // All bytes of the glyph of c lie in the font's data.
    predicate Has(c: int) { 0 <= Address(c) && Address(c) + GlyphSize() <= |data| }

    /** The bytes from the start of the glyph of c on. */
    function Glyph(c: int): (g: seq<bv8>)
      requires Valid() && Has(c)
      ensures height * BytesPerLine(width) <= |g|
    {
      data[Address(c)..]
    }
  }

  /** The characters whose glyph lies in the font's data: all but the negative ones and,
      in a table of no more than charCount glyphs, the one just past its end. */
  lemma GlyphExists(f: Font, c: int)
    requires f.Valid()
    ensures f.Has(c) <==> c >= 0 && (c != f.charCount || f.GlyphSize() * (f.charCount + 1) <= |f.data|)
  {
    var size := f.GlyphSize();
    GlyphNotEmpty(f.byteWidth, f.height);
    if 0 <= c < f.charCount {
      NextGlyph(size, c);
      Arithmetic.MulMonotone(size, c + 1, f.charCount);
    } else if c > f.charCount {
      NextGlyph(size, 0);
      Arithmetic.MulMonotone(size, 1, f.charCount);
    } else if c < 0 {
      BeforeTable(size, c);
    } else {
      NextGlyph(size, c);
    }
  }

  lemma GlyphNotEmpty(width: nat, height: nat)
    requires width > 0 && height > 0
    ensures width * height > 0
  {
  }

  lemma NextGlyph(size: nat, c: nat)
    ensures size * (c + 1) == size * c + size
  {
  }

  lemma BeforeTable(size: nat, c: int)
    requires size > 0 && c < 0
    ensures size * c < 0
  {
  }

  datatype State = State(curX: nat, curY: nat, bg: Color, fg: Color, font: Option<Font>)
  {
    ghost predicate Ready(c: int) {
      font.Some? ==> font.value.Valid() && (c == NEWLINE || c == RETURN || font.value.Has(c))
    }
  }

  const NEWLINE := 10
  const RETURN := 13

  /** The cell the next character goes to: past the last column comes the next line, past
      the last line the first. */
  function Wrapped(st: State): State
    requires st.font.Some?
  {
    var f := st.font.value;
    var over := (st.curX + 1) * f.width > 320;
    var x, y := if over then 0 else st.curX, if over then st.curY + 1 else st.curY;
    st.(curX := x, curY := if (y + 1) * f.height > 200 then 0 else y)
  }

  function Next(st: State, c: int): State {
    if st.font.None? then st
    else
      var p := Wrapped(st);
      if c == NEWLINE then p.(curX := 0, curY := p.curY + 1)
      else if c == RETURN then p.(curX := 0)
      else p.(curX := p.curX + 1)
  }

  predicate InCell(x: nat, y: nat, f: Font, px: int, py: int) {
    x * f.width <= px < x * f.width + f.width && y * f.height <= py < y * f.height + f.height
  }

  /** The colour of the glyph of c at a point of its cell. */
  ghost function GlyphInk(f: Font, c: int, dx: int, dy: int, bg: Color, fg: Color): Color
    requires f.Valid() && f.Has(c) && dx >= 0 && dy >= 0
  {
    Ink(f.Glyph(c), f.width, dx, dy, bg, fg)
  }

  /** What a character leaves of a pixel that was `before`. */
  ghost function AfterChar(st: State, c: int, px: int, py: int, before: Color): Color
    requires st.Ready(c)
  {
    if st.font.None? || c == NEWLINE || c == RETURN then before
    else
      var p, f := Wrapped(st), st.font.value;
      if InCell(p.curX, p.curY, f, px, py)
      then GlyphInk(f, c, px - p.curX * f.width, py - p.curY * f.height, st.bg, st.fg)
      else before
  }

  /** From any cursor position, under any font, the next glyph lies wholly on the screen. */
  lemma GlyphOnScreen(st: State)
    requires st.font.Some? && st.font.value.Valid()
    ensures var p, f := Wrapped(st), st.font.value;
      p.curX * f.width + f.width <= 320 && p.curY * f.height + f.height <= 200
  {
    var p, f := Wrapped(st), st.font.value;
    assert (p.curX + 1) * f.width == p.curX * f.width + f.width;
    assert (p.curY + 1) * f.height == p.curY * f.height + f.height;
  }

  // What a drawn character leaves, in pixels.
  lemma AfterDrawing(st: State, c: int, px: int, py: int, before: Color)
    requires st.font.Some? && st.Ready(c) && c != NEWLINE && c != RETURN
    ensures var p, f := Wrapped(st), st.font.value;
      var x, y := p.curX * f.width, p.curY * f.height;
      AfterChar(st, c, px, py, before) ==
      if x <= px < x + f.width && y <= py < y + f.height then GlyphInk(f, c, px - x, py - y, st.bg, st.fg) else before
  {
    hide Wrapped, GlyphInk;
  }

  lemma OffsetInside(p: int, o: Word16, w: Word16)
    requires 0 <= p < 320 && o + w <= 320
    ensures Offset(p, o) < w <==> o <= p < o + w
    ensures o <= p ==> Offset(p, o) == p - o
  {
  }

  // ------------------------------------------------------------------ text

  ghost predicate TextReady(st: State, s: seq<int>) {
    forall i :: 0 <= i < |s| ==> st.Ready(s[i])
  }

  function StateAfter(st: State, s: seq<int>): (r: State)
    ensures r.font == st.font && r.bg == st.bg && r.fg == st.fg
  {
    if s == [] then st else Next(StateAfter(st, s[..|s| - 1]), s[|s| - 1])
  }

  /** What a text leaves of a pixel that was `before`. */
  ghost function PixelAfter(st: State, s: seq<int>, px: int, py: int, before: Color): Color
    requires TextReady(st, s)
  {
    if s == [] then before
    else
      var t := s[..|s| - 1];
      AfterChar(StateAfter(st, t), s[|s| - 1], px, py, PixelAfter(st, t, px, py, before))
  }

  class Screen {
    const vram: array<Color>
    var curX: nat
    var curY: nat
    var bgColor: Color
    var fgColor: Color
    var font: Option<Font>
    var err: Error

    constructor ()
      ensures vram.Length == 64000 && fresh(vram) && err == NoError
      ensures Model() == State(0, 0, 0, 15, None)
    {
      vram := new Color[64000];
      curX, curY, bgColor, fgColor, font, err := 0, 0, 0, 15, None, NoError;
    }

    function Model(): State
      reads this
    {
      State(curX, curY, bgColor, fgColor, font)
    }

    // The two overflow checks at the top of putchar.
    method PlaceCursor()
      requires font.Some?
      modifies `curX, `curY
      ensures Model() == Wrapped(old(Model()))
    {
      var f := font.value;
      if (curX + 1) * f.width > 320 {
        curX := 0;
        curY := curY + 1;
      }
      if (curY + 1) * f.height > 200 {
        curY := 0;
      }
    }

    method PutChar(c: int)
      requires vram.Length == 64000 && Model().Ready(c)
      modifies this, vram
      ensures Model() == Next(old(Model()), c)
      ensures err == if old(font).None? then NoFont else old(err)
      ensures forall px, py :: OnScreen(px, py) ==>
        Pixel(vram[..], px, py) == AfterChar(old(Model()), c, px, py, old(Pixel(vram[..], px, py)))
    {
      if font.None? {
        err := NoFont;
        return;
      }
      hide Font.Glyph, Font.Valid, Font.Has, GlyphInk, Pixel, Wrapped;
      ghost var st, b0 := Model(), vram[..];
      var f := font.value;
      PlaceCursor();
      if c == NEWLINE {
        curY := curY + 1;
        curX := 0;
      } else if c == RETURN {
        curX := 0;
      } else {
        GlyphOnScreen(st);
        DrawGlyph(c, f, curX * f.width, curY * f.height);
        forall px, py | OnScreen(px, py)
          ensures Pixel(vram[..], px, py) == AfterChar(st, c, px, py, Pixel(b0, px, py))
        {
          AfterDrawing(st, c, px, py, Pixel(b0, px, py));
        }
        curX := curX + 1;
      }
    }

    method DrawGlyph(c: int, f: Font, x: nat, y: nat)
      requires vram.Length == 64000 && f.Valid() && f.Has(c)
      requires x + f.width <= 320 && y + f.height <= 200
      modifies vram
      ensures forall px, py :: OnScreen(px, py) ==>
        Pixel(vram[..], px, py) ==
        if x <= px < x + f.width && y <= py < y + f.height
        then GlyphInk(f, c, px - x, py - y, bgColor, fgColor)
        else old(Pixel(vram[..], px, py))
    {
      hide Ink, Font.Glyph, Font.Valid, Font.Has, Pixel, Offset;
      ghost var b0 := vram[..];
      var _ := DrawBitmap(vram, Low16(x), Low16(y), f.width, f.height, Some(f.Glyph(c)), bgColor, fgColor);
      forall px, py | OnScreen(px, py)
        ensures Pixel(vram[..], px, py) ==
          if x <= px < x + f.width && y <= py < y + f.height
          then GlyphInk(f, c, px - x, py - y, bgColor, fgColor)
          else Pixel(b0, px, py)
      {
        OffsetInside(px, x, f.width);
        OffsetInside(py, y, f.height);
      }
    }

    method Puts(s: seq<Strings.SChar>)
      requires vram.Length == 64000 && Strings.CStr(s) && TextReady(Model(), s[..|s| - 1])
      modifies this, vram
      ensures Model() == StateAfter(old(Model()), s[..|s| - 1])
      ensures forall px, py :: OnScreen(px, py) ==>
        Pixel(vram[..], px, py) == PixelAfter(old(Model()), s[..|s| - 1], px, py, old(Pixel(vram[..], px, py)))
    {
      hide AfterChar, Next, Pixel;
      ghost var st, b0 := Model(), vram[..];
      ghost var text: seq<int> := s[..|s| - 1];
      var i := 0;
      while s[i] != 0
        invariant i < |s| && Model() == StateAfter(st, text[..i])
        invariant forall px, py :: OnScreen(px, py) ==>
          Pixel(vram[..], px, py) == PixelAfter(st, text[..i], px, py, Pixel(b0, px, py))
        decreases |s| - i
      {
        assert text[..i + 1][..i] == text[..i] && text[..i + 1][i] == s[i];
        assert st.Ready(text[i]);
        PutChar(s[i]);
        i := i + 1;
      }
      assert text[..i] == text;
    }

    method Clear()
      requires vram.Length == 64000
      modifies vram
      ensures forall px, py :: OnScreen(px, py) ==> Pixel(vram[..], px, py) == bgColor
    {
      DrawRect(vram, 0, 0, WIDTH, HEIGHT, bgColor);
    }
  }
}
