// Where text lands: the screen is a ring of cells.
module ConsoleTheorems {
  import opened Arithmetic
  import opened Wrappers
  import opened Bitmaps
  import opened Vga
  import opened Console

  // ------------------------------------------------------------------ arithmetic

  // How many steps of size w fit.
  lemma Overflows(x: nat, w: nat, limit: nat)
    requires w > 0
    ensures (x + 1) * w > limit <==> x >= limit / w
  {
    var q := limit / w;
    DivMod(limit, w);
    assert w * (x + 1) == (x + 1) * w && w * q == q * w && w * (q + 1) == q * w + w;
    if x >= q {
      MulMonotone(w, q + 1, x + 1);
    } else {
      MulMonotone(w, x + 1, q);
    }
  }

  // ------------------------------------------------------------------ the ring of cells

  function Cols(f: Font): nat
    requires f.width > 0
  {
    320 / f.width
  }

  function Rows(f: Font): nat
    requires f.height > 0
  {
    200 / f.height
  }

  lemma SomeCells(f: Font)
    requires 0 < f.width <= 320 && 0 < f.height <= 200
    ensures Cols(f) > 0 && Rows(f) > 0
  {
    Overflows(0, f.width, 320);
    Overflows(0, f.height, 200);
  }

  /** The cell of the k-th character of a text. */
  function Cell(k: nat, cols: nat, rows: nat): (nat, nat)
    requires cols > 0 && rows > 0
  {
    (k % cols, (k / cols) % rows)
  }

  lemma NextCell(k: nat, cols: nat, rows: nat)
    requires cols > 0 && rows > 0
    ensures var (x, y) := Cell(k, cols, rows);
      Cell(k + 1, cols, rows) ==
      if x + 1 < cols then (x + 1, y) else (0, if y + 1 < rows then y + 1 else 0)
  {
    Successor(k, cols);
    Successor(k / cols, rows);
  }

  // Text that only draws: a font, the cursor at the top left, no control characters.
  ghost predicate Drawn(st: State, s: seq<int>) {
    && st.font.Some? && st.font.value.Valid() && st.curX == st.curY == 0
    && forall i :: 0 <= i < |s| ==> s[i] != NEWLINE && s[i] != RETURN && st.font.value.Has(s[i])
  }

  lemma WrappedCell(st: State, cols: nat, rows: nat)
    requires st.font.Some? && st.font.value.Valid()
    requires cols == Cols(st.font.value) && rows == Rows(st.font.value)
    ensures var x, y := if st.curX >= cols then 0 else st.curX, if st.curX >= cols then st.curY + 1 else st.curY;
      Wrapped(st) == st.(curX := x, curY := if y >= rows then 0 else y)
  {
    var y := if st.curX >= cols then st.curY + 1 else st.curY;
    Overflows(st.curX, st.font.value.width, 320);
    Overflows(y, st.font.value.height, 200);
  }

  /** Character number |s| goes to cell (|s| mod cols, |s| / cols mod rows). */
  lemma {:induction false} CursorInRing(st: State, s: seq<int>)
    requires Drawn(st, s)
    ensures Cols(st.font.value) > 0 && Rows(st.font.value) > 0
    ensures var p := Wrapped(StateAfter(st, s));
      (p.curX, p.curY) == Cell(|s|, Cols(st.font.value), Rows(st.font.value))
    decreases |s|
  {
    hide Wrapped, Cols, Rows, Cell;
    var f := st.font.value;
    SomeCells(f);
    var cols, rows := Cols(f), Rows(f);
    if s == [] {
      FirstCell(cols, rows);
      WrappedCell(st, cols, rows);
    } else {
      var t := s[..|s| - 1];
      CursorInRing(st, t);
      NextCell(|t|, cols, rows);
      CellBounds(|t|, cols, rows);
      WrappedCell(StateAfter(st, s), cols, rows);
    }
  }

  lemma FirstCell(cols: nat, rows: nat)
    requires cols > 0 && rows > 0
    ensures Cell(0, cols, rows) == (0, 0)
  {
    DivUnique(0, cols, 0, 0);
    DivUnique(0, rows, 0, 0);
  }

  lemma CellBounds(k: nat, cols: nat, rows: nat)
    requires cols > 0 && rows > 0
    ensures Cell(k, cols, rows).0 < cols && Cell(k, cols, rows).1 < rows
  {
  }

  // ------------------------------------------------------------------ pixels

  lemma CellOfPixel(x: nat, w: nat, p: nat)
    requires w > 0
    ensures x * w <= p < x * w + w <==> p / w == x
    ensures p / w == x ==> p - x * w == p % w
  {
    DivMod(p, w);
    if x * w <= p < x * w + w {
      DivUnique(p, w, x, p - x * w);
    }
  }

  function Column(f: Font, px: nat): nat
    requires f.width > 0
  {
    px / f.width
  }

  function Line(f: Font, py: nat): nat
    requires f.height > 0
  {
    py / f.height
  }

  // Whether character k of the text is drawn over the pixel.
  ghost predicate Over(f: Font, k: nat, px: nat, py: nat)
    requires f.width > 0 && f.height > 0 && Cols(f) > 0 && Rows(f) > 0
  {
    Cell(k, Cols(f), Rows(f)) == (Column(f, px), Line(f, py))
  }

  lemma {:induction false} DrawnOver(st: State, s: seq<int>, px: nat, py: nat, before: Color)
    requires Drawn(st, s) && |s| > 0
    ensures Cols(st.font.value) > 0 && Rows(st.font.value) > 0 && TextReady(st, s)
    ensures var f, n, t := st.font.value, |s| - 1, s[..|s| - 1];
      PixelAfter(st, s, px, py, before) ==
      if Over(f, n, px, py) then GlyphInk(f, s[n], px % f.width, py % f.height, st.bg, st.fg)
      else PixelAfter(st, t, px, py, before)
  {
    hide GlyphInk, Wrapped, Cols, Rows, Cell;
    var f, t := st.font.value, s[..|s| - 1];
    var p := Wrapped(StateAfter(st, t));
    CursorInRing(st, t);
    CellOfPixel(p.curX, f.width, px);
    CellOfPixel(p.curY, f.height, py);
  }

  /** A pixel whose cell no character of the text goes to keeps its colour. */
  lemma {:induction false} UntouchedPixel(st: State, s: seq<int>, px: nat, py: nat, before: Color)
    requires Drawn(st, s) && TextReady(st, s) && Cols(st.font.value) > 0 && Rows(st.font.value) > 0
    requires forall j: nat :: j < |s| ==> !Over(st.font.value, j, px, py)
    ensures PixelAfter(st, s, px, py, before) == before
    decreases |s|
  {
    hide GlyphInk, AfterChar, Cols, Rows, Cell;
    if s != [] {
      DrawnOver(st, s, px, py, before);
      UntouchedPixel(st, s[..|s| - 1], px, py, before);
    }
  }

  /** Otherwise it shows the glyph of the last character that goes there. */
  lemma {:induction false} LastCharacterShows(st: State, s: seq<int>, k: nat, px: nat, py: nat, before: Color)
    requires Drawn(st, s) && TextReady(st, s) && Cols(st.font.value) > 0 && Rows(st.font.value) > 0
    requires k < |s| && Over(st.font.value, k, px, py)
    requires forall j: nat :: k < j < |s| ==> !Over(st.font.value, j, px, py)
    ensures var f := st.font.value;
      PixelAfter(st, s, px, py, before) == GlyphInk(f, s[k], px % f.width, py % f.height, st.bg, st.fg)
    decreases |s|
  {
    hide GlyphInk, AfterChar, PixelAfter, Cols, Rows, Cell;
    DrawnOver(st, s, px, py, before);
    if k < |s| - 1 {
      LastCharacterShows(st, s[..|s| - 1], k, px, py, before);
    }
  }

  // ------------------------------------------------------------------ the closed form

  // The place of a cell in reading order.
  function Place(c: (nat, nat), cols: nat): nat { c.1 * cols + c.0 }

  lemma PlaceOfCell(k: nat, cols: nat, rows: nat)
    requires cols > 0 && rows > 0
    ensures Place(Cell(k, cols, rows), cols) == k % (cols * rows)
  {
    var a, x := k / cols, k % cols;
    var b, y := a / rows, a % rows;
    DivMod(k, cols);
    DivMod(a, rows);
    RingSplit(k, cols, rows, b, y, x);
  }

  lemma RingSplit(k: nat, cols: nat, rows: nat, b: nat, y: nat, x: nat)
    requires cols > 0 && rows > 0 && x < cols && y < rows && k == (b * rows + y) * cols + x
    ensures cols * rows > 0 && k % (cols * rows) == y * cols + x
  {
    assert k == b * (cols * rows) + (y * cols + x) by {
      assert (b * rows + y) * cols == b * (cols * rows) + y * cols;
    }
    assert cols * (y + 1) == y * cols + cols;
    MulMonotone(cols, y + 1, rows);
    DivUnique(k, cols * rows, b, y * cols + x);
  }

  lemma SamePlace(c: (nat, nat), d: (nat, nat), cols: nat)
    requires c.0 < cols && d.0 < cols && Place(c, cols) == Place(d, cols)
    ensures c == d
  {
    DivUnique(Place(c, cols), cols, c.1, c.0);
    DivUnique(Place(d, cols), cols, d.1, d.0);
  }

  // The number of cells.
  function Ring(cols: nat, rows: nat): (r: nat)
    requires cols > 0 && rows > 0
    ensures r > 0
  {
    cols * rows
  }

  /** The last of the numbers below n that leave remainder q modulo r. */
  function LastWith(n: nat, q: nat, r: nat): (k: nat)
    requires q < n && r > 0
    ensures q <= k < n
  {
    var e := (n - 1 - q) % r;
    DivMod(n - 1 - q, r);
    RemainderNotLarger(n - 1 - q, r);
    n - 1 - e
  }

  lemma LastWithIsLast(n: nat, q: nat, r: nat)
    requires q < n && q < r
    ensures LastWith(n, q, r) % r == q
    ensures forall j: nat :: LastWith(n, q, r) < j < n ==> j % r != q
  {
    var d, e := (n - 1 - q) / r, (n - 1 - q) % r;
    DivMod(n - 1 - q, r);
    var k := LastWith(n, q, r);
    DivUnique(k, r, d, q);
    forall j: nat | k < j < n ensures j % r != q {
      var i := j - k;
      if q + i < r {
        DivUnique(j, r, d, q + i);
      } else {
        assert (d + 1) * r == d * r + r;
        DivUnique(j, r, d + 1, q + i - r);
      }
    }
  }

  lemma OverByPlace(f: Font, k: nat, px: nat, py: nat)
    requires f.width > 0 && f.height > 0 && Cols(f) > 0 && Rows(f) > 0
    ensures var x, y := Column(f, px), Line(f, py);
      Over(f, k, px, py) <==>
        x < Cols(f) && y < Rows(f) && k % Ring(Cols(f), Rows(f)) == Place((x, y), Cols(f))
  {
    hide Cell, Cols, Rows, Column, Line;
    var x, y := Column(f, px), Line(f, py);
    CellBounds(k, Cols(f), Rows(f));
    PlaceOfCell(k, Cols(f), Rows(f));
    if x < Cols(f) && k % Ring(Cols(f), Rows(f)) == Place((x, y), Cols(f)) {
      SamePlace(Cell(k, Cols(f), Rows(f)), (x, y), Cols(f));
    }
  }

  lemma PlaceInRing(x: nat, y: nat, cols: nat, rows: nat)
    requires x < cols && y < rows
    ensures Place((x, y), cols) < Ring(cols, rows)
  {
    assert cols * (y + 1) == y * cols + cols;
    MulMonotone(cols, y + 1, rows);
  }

  /** The number of the cell a pixel is in, in reading order. */
  function CellNumber(f: Font, px: nat, py: nat): Option<nat>
    requires f.width > 0 && f.height > 0
  {
    var x, y := Column(f, px), Line(f, py);
    if x < Cols(f) && y < Rows(f) then Some(Place((x, y), Cols(f))) else None
  }

  function CellCount(f: Font): (r: nat)
    requires 0 < f.width <= 320 && 0 < f.height <= 200
    ensures r > 0
  {
    SomeCells(f);
    Ring(Cols(f), Rows(f))
  }

  // The glyph of character k of the text, at the pixel's place in its cell.
  ghost function ShownBy(st: State, s: seq<int>, k: nat, px: nat, py: nat): Color
    requires Drawn(st, s) && k < |s|
  {
    var f := st.font.value;
    GlyphInk(f, s[k], px % f.width, py % f.height, st.bg, st.fg)
  }

  // A pixel of cell number q shows the last character k with k mod (cols * rows) = q, if
  // there is one.
  ghost function RingColor(st: State, s: seq<int>, px: nat, py: nat, before: Color): Color
    requires Drawn(st, s)
  {
    match CellNumber(st.font.value, px, py)
    case None => before
    case Some(q) =>
      if q >= |s| then before
      else ShownBy(st, s, LastWith(|s|, q, CellCount(st.font.value)), px, py)
  }

  lemma TextIsReady(st: State, s: seq<int>)
    requires Drawn(st, s)
    ensures TextReady(st, s)
  {
  }

  lemma OverByNumber(f: Font, k: nat, px: nat, py: nat)
    requires 0 < f.width <= 320 && 0 < f.height <= 200
    ensures Cols(f) > 0 && Rows(f) > 0
    ensures Over(f, k, px, py) <==> CellNumber(f, px, py) == Some(k % CellCount(f))
    ensures CellNumber(f, px, py).Some? ==> CellNumber(f, px, py).value < CellCount(f)
  {
    hide Over, Place, Ring, Column, Line, Cols, Rows;
    SomeCells(f);
    OverByPlace(f, k, px, py);
    var x, y := Column(f, px), Line(f, py);
    if x < Cols(f) && y < Rows(f) {
      PlaceInRing(x, y, Cols(f), Rows(f));
    }
  }

  /** The screen after any text from the top left corner, in closed form. */
  lemma TextFillsRing(st: State, s: seq<int>, px: nat, py: nat, before: Color)
    requires Drawn(st, s)
    ensures TextReady(st, s)
    ensures PixelAfter(st, s, px, py, before) == RingColor(st, s, px, py, before)
  {
    hide GlyphInk, PixelAfter, TextReady, Over, CellNumber, CellCount, LastWith;
    TextIsReady(st, s);
    var f, n := st.font.value, |s|;
    SomeCells(f);
    var cell, r := CellNumber(f, px, py), CellCount(f);
    OverByNumber(f, 0, px, py);
    if cell.None? || cell.value >= n {
      forall j: nat | j < n ensures !Over(f, j, px, py) {
        OverByNumber(f, j, px, py);
        if cell.Some? {
          DivUnique(j, r, 0, j);
        }
      }
      UntouchedPixel(st, s, px, py, before);
    } else {
      var k := LastWith(n, cell.value, r);
      LastWithIsLast(n, cell.value, r);
      OverByNumber(f, k, px, py);
      forall j: nat | k < j < n ensures !Over(f, j, px, py) {
        OverByNumber(f, j, px, py);
      }
      LastCharacterShows(st, s, k, px, py, before);
    }
  }

  // ------------------------------------------------------------------ any run of calls

  datatype Event = Put(c: int) | SetFont(font: Option<Font>) | SetFg(color: Color) | SetBg(color: Color)

  function After(st: State, e: Event): State {
    match e
    case Put(c) => Next(st, c)
    case SetFont(f) => st.(font := f)
    case SetFg(c) => st.(fg := c)
    case SetBg(c) => st.(bg := c)
  }

  datatype Box = Box(x: nat, y: nat, width: nat, height: nat)

  /** The boxes a run of calls hands to vga_draw_bitmap. */
  function Boxes(st: State, events: seq<Event>): seq<Box>
    decreases |events|
  {
    if events == [] then []
    else
      var e, rest := events[0], Boxes(After(st, events[0]), events[1..]);
      if e.Put? && st.font.Some? && e.c != NEWLINE && e.c != RETURN then
        var p, f := Wrapped(st), st.font.value;
        [Box(p.curX * f.width, p.curY * f.height, f.width, f.height)] + rest
      else rest
  }

  ghost predicate FontsValid(st: State, events: seq<Event>) {
    && (st.font.Some? ==> st.font.value.Valid())
    && forall i :: 0 <= i < |events| && events[i].SetFont? && events[i].font.Some? ==> events[i].font.value.Valid()
  }

  /** Over any interleaving of characters, newlines, returns and font changes every glyph
      lies wholly on the screen, so no pixel of a glyph is ever clipped or wrapped. */
  lemma {:induction false} RunStaysOnScreen(st: State, events: seq<Event>)
    requires FontsValid(st, events)
    ensures forall b :: b in Boxes(st, events) ==> b.x + b.width <= 320 && b.y + b.height <= 200
    decreases |events|
  {
    hide Font.Valid;
    if events != [] {
      var e := events[0];
      assert forall i :: 0 <= i < |events| - 1 ==> events[1..][i] == events[i + 1];
      RunStaysOnScreen(After(st, e), events[1..]);
      if st.font.Some? {
        GlyphOnScreen(st);
      }
    }
  }
}
