// Text with line breaks, and the glyphs it shows as pictures.
module ConsoleLines {
  import opened Wrappers
  import opened Arithmetic
  import opened Bitmaps
  import opened Vga
  import opened Console
  import opened ConsoleTheorems

  // ------------------------------------------------------------------ line breaks

  lemma SnocState(st: State, s: seq<int>, c: int)
    ensures StateAfter(st, s + [c]) == Next(StateAfter(st, s), c)
  {
    assert (s + [c])[..|s|] == s;
  }

  /** A newline leads to the first column, one line below the line the next character
      would have gone to; a return to the first column of that line itself. */
  lemma LineBreaks(st: State, s: seq<int>)
    requires st.font.Some?
    ensures var p, q := Wrapped(StateAfter(st, s)), StateAfter(st, s + [NEWLINE]);
      q.curX == 0 && q.curY == p.curY + 1
    ensures var p, q := Wrapped(StateAfter(st, s)), StateAfter(st, s + [RETURN]);
      q.curX == 0 && q.curY == p.curY
  {
    hide Wrapped;
    SnocState(st, s, NEWLINE);
    SnocState(st, s, RETURN);
  }

  predicate Draws(c: int) { c != NEWLINE && c != RETURN }

  /** A drawn character advances the cursor by one column from its own cell. */
  lemma DrawingAdvances(st: State, s: seq<int>, c: int)
    requires st.font.Some? && Draws(c)
    ensures var p, q := Wrapped(StateAfter(st, s)), StateAfter(st, s + [c]);
      q.curX == p.curX + 1 && q.curY == p.curY
  {
    hide Wrapped;
    SnocState(st, s, c);
  }

  /** Lines, each ended by a newline. */
  function Printed(lines: seq<seq<int>>): seq<int> {
    if lines == [] then [] else Printed(lines[..|lines| - 1]) + lines[|lines| - 1] + [NEWLINE]
  }

  // A line that fits beside its newline.
  ghost predicate Short(line: seq<int>, cols: nat) {
    |line| < cols && forall i :: 0 <= i < |line| ==> Draws(line[i])
  }

  ghost predicate AtTopLeft(st: State) {
    st.font.Some? && st.font.value.Valid() && st.curX == st.curY == 0
  }

  /** Character k of line j lands in cell (k, j mod rows), whatever the lines before hold,
      as long as they are shorter than the screen is wide. */
  lemma {:induction false} LinesInRing(st: State, lines: seq<seq<int>>, line: seq<int>)
    requires AtTopLeft(st)
    requires Short(line, Cols(st.font.value)) && forall i :: 0 <= i < |lines| ==> Short(lines[i], Cols(st.font.value))
    ensures Rows(st.font.value) > 0
    ensures var p := Wrapped(StateAfter(st, Printed(lines) + line));
      p.curX == |line| && p.curY == |lines| % Rows(st.font.value)
    decreases |lines|, |line|
  {
    hide Wrapped, Cols, Rows, Printed;
    var f := st.font.value;
    var cols, rows := Cols(f), Rows(f);
    SomeCells(f);
    var s := Printed(lines) + line;
    if line != [] {
      var t, c := line[..|line| - 1], line[|line| - 1];
      LinesInRing(st, lines, t);
      assert s == (Printed(lines) + t) + [c];
      DrawingAdvances(st, Printed(lines) + t, c);
      DivMod(|lines|, rows);
    } else if lines == [] {
      PrintedNone();
      DivUnique(0, rows, 0, 0);
    } else {
      var before, l := lines[..|lines| - 1], lines[|lines| - 1];
      LinesInRing(st, before, l);
      PrintedSnoc(lines);
      assert s == (Printed(before) + l) + [NEWLINE];
      LineBreaks(st, Printed(before) + l);
      Successor(|before|, rows);
      DivMod(|before|, rows);
    }
    WrappedCell(StateAfter(st, s), cols, rows);
  }

  lemma PrintedNone()
    ensures Printed([]) == []
  {
  }

  lemma PrintedSnoc(lines: seq<seq<int>>)
    requires lines != []
    ensures Printed(lines) == Printed(lines[..|lines| - 1]) + lines[|lines| - 1] + [NEWLINE]
  {
  }

  // ------------------------------------------------------------------ glyphs as pictures

  function PackAll(glyphs: seq<Picture>): seq<bv8> {
    if glyphs == [] then [] else PackRows(glyphs[0].rows) + PackAll(glyphs[1..])
  }

  /** The font's data are its glyphs, packed one after the other. */
  ghost predicate Pictured(f: Font, glyphs: seq<Picture>) {
    && f.Valid() && |glyphs| == f.charCount && f.data == PackAll(glyphs)
    && forall i :: 0 <= i < |glyphs| ==> glyphs[i].Valid() && glyphs[i].width == f.width && |glyphs[i].rows| == f.height
  }

  // Characters past the table show its first glyph.
  function GlyphOf(glyphs: seq<Picture>, c: nat): Picture
    requires glyphs != []
  {
    if c < |glyphs| then glyphs[c] else glyphs[0]
  }

  lemma {:induction false} PackedGlyph(glyphs: seq<Picture>, size: nat, c: nat)
    requires c < |glyphs| && forall i :: 0 <= i < |glyphs| ==> |PackRows(glyphs[i].rows)| == size
    ensures size * c <= |PackAll(glyphs)| && PackRows(glyphs[c].rows) <= PackAll(glyphs)[size * c..]
    ensures |PackAll(glyphs)| == size * |glyphs|
    decreases |glyphs|
  {
    hide PackRows;
    var all, rest := PackAll(glyphs), PackAll(glyphs[1..]);
    NextGlyph(size, |glyphs| - 1);
    if |glyphs| > 1 {
      PackedGlyph(glyphs[1..], size, if c > 0 then c - 1 else 0);
    }
    if c > 0 {
      NextGlyph(size, c - 1);
      assert all[size * c..] == rest[size * (c - 1)..];
    }
  }

  lemma GlyphIsPicture(f: Font, glyphs: seq<Picture>, c: int)
    requires Pictured(f, glyphs) && f.Has(c)
    ensures 0 <= c && glyphs != [] && Depicts(f.Glyph(c), GlyphOf(glyphs, c))
  {
    hide PackRows, PackAll;
    var size := f.GlyphSize();
    forall i | 0 <= i < |glyphs| ensures |PackRows(glyphs[i].rows)| == size {
      RowsLength(glyphs[i].rows, f.width);
      Commute(f.byteWidth, f.height);
    }
    PackedGlyph(glyphs, size, if 0 <= c < |glyphs| then c else 0);
    GlyphNotEmpty(f.byteWidth, f.height);
    GlyphExists(f, c);
    NextGlyph(size, f.charCount);
    Nothing(size);
  }

  lemma Commute(a: nat, b: nat)
    ensures a * b == b * a
  {
  }

  lemma Nothing(size: nat)
    ensures size * 0 == 0
  {
  }

  // Character k of the text is drawn over the pixel.
  ghost predicate DrawnAt(st: State, s: seq<int>, k: nat, px: int, py: int)
    requires st.font.Some? && k < |s|
  {
    var p := Wrapped(StateAfter(st, s[..k]));
    Draws(s[k]) && InCell(p.curX, p.curY, st.font.value, px, py)
  }

  // The colour the picture of character c has at that point of its cell.
  ghost function Showing(st: State, glyphs: seq<Picture>, c: nat, dx: nat, dy: nat): Color
    requires st.font.Some? && Pictured(st.font.value, glyphs) && glyphs != []
    requires dx < st.font.value.width && dy < st.font.value.height
  {
    if GlyphOf(glyphs, c).At(dx, dy) then st.fg else st.bg
  }

  lemma DrawnShows(st: State, c: int, glyphs: seq<Picture>, px: int, py: int, before: Color)
    requires st.font.Some? && Pictured(st.font.value, glyphs) && st.Ready(c) && Draws(c)
    requires var p := Wrapped(st); InCell(p.curX, p.curY, st.font.value, px, py)
    ensures c >= 0 && glyphs != []
    ensures var p, f := Wrapped(st), st.font.value;
      AfterChar(st, c, px, py, before) == Showing(st, glyphs, c, px - p.curX * f.width, py - p.curY * f.height)
  {
    hide Wrapped, Font.Glyph, Depicts, Ink;
    var p, f := Wrapped(st), st.font.value;
    GlyphIsPicture(f, glyphs, c);
    InkOfPicture(f.Glyph(c), GlyphOf(glyphs, c), px - p.curX * f.width, py - p.curY * f.height, st.bg, st.fg);
  }

  /** After any text, from any cursor, a pixel shows the picture of the last character
      drawn over it, in the text's colours ... */
  lemma {:induction false} LastDrawnShows(st: State, s: seq<int>, k: nat, glyphs: seq<Picture>, px: int, py: int,
                                           before: Color)
    requires st.font.Some? && Pictured(st.font.value, glyphs) && TextReady(st, s)
    requires k < |s| && DrawnAt(st, s, k, px, py) && forall j: nat :: k < j < |s| ==> !DrawnAt(st, s, j, px, py)
    ensures s[k] >= 0 && glyphs != []
    ensures var p, f := Wrapped(StateAfter(st, s[..k])), st.font.value;
      PixelAfter(st, s, px, py, before) == Showing(st, glyphs, s[k], px - p.curX * f.width, py - p.curY * f.height)
    decreases |s|
  {
    hide Wrapped, Pictured, AfterChar, InCell, GlyphOf;
    var t := s[..|s| - 1];
    if k == |s| - 1 {
      DrawnShows(StateAfter(st, t), s[k], glyphs, px, py, PixelAfter(st, t, px, py, before));
    } else {
      assert t[..k] == s[..k];
      forall j: nat | k < j < |t| ensures !DrawnAt(st, t, j, px, py) {
        assert t[..j] == s[..j] && !DrawnAt(st, s, j, px, py);
      }
      LastDrawnShows(st, t, k, glyphs, px, py, before);
      assert !DrawnAt(st, s, |s| - 1, px, py);
      NotDrawnOver(StateAfter(st, t), s[|s| - 1], px, py, PixelAfter(st, t, px, py, before));
    }
  }

  lemma NotDrawnOver(st: State, c: int, px: int, py: int, before: Color)
    requires st.font.Some? && st.Ready(c)
    requires Draws(c) ==> var p := Wrapped(st); !InCell(p.curX, p.curY, st.font.value, px, py)
    ensures AfterChar(st, c, px, py, before) == before
  {
  }

  /** ... and keeps its colour if none is. */
  lemma {:induction false} UndrawnStays(st: State, s: seq<int>, px: int, py: int, before: Color)
    requires st.font.Some? && TextReady(st, s)
    requires forall j: nat :: j < |s| ==> !DrawnAt(st, s, j, px, py)
    ensures PixelAfter(st, s, px, py, before) == before
    decreases |s|
  {
    hide Wrapped, AfterChar, InCell;
    if s != [] {
      var t := s[..|s| - 1];
      forall j: nat | j < |t| ensures !DrawnAt(st, t, j, px, py) {
        assert t[..j] == s[..j] && !DrawnAt(st, s, j, px, py);
      }
      UndrawnStays(st, t, px, py, before);
      assert !DrawnAt(st, s, |s| - 1, px, py);
      NotDrawnOver(StateAfter(st, t), s[|s| - 1], px, py, PixelAfter(st, t, px, py, before));
    }
  }
}
