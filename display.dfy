/**
 * The LCD renderer, `lcd.Draw`: lay the message out, then paint the
 * background, every cell in pixelOff and every lit glyph dot in pixelOn, in
 * that order, at a scale factor of 10.
 */
module Display {
  import opened Raster
  import opened Glyphs
  import opened Layout

  datatype CharSize = CharSize(w: int, h: int)

  datatype ColorSet = ColorSet(background: Rgba, pixelOff: Rgba, pixelOn: Rgba)

  /** All three colours are fully opaque, as in the standard colour set. */
  predicate OpaqueColours(cs: ColorSet)
  {
    Opaque(cs.background) && Opaque(cs.pixelOff) && Opaque(cs.pixelOn)
  }

  /** An LCD: rows x cols cells of w x h dots, `charSep` dots apart. */
  datatype Lcd = Lcd(rows: int, cols: int, charSize: CharSize, charSep: int,
                     colorSet: ColorSet, fonttable: FontTable)

  const ScaleFactor: int := 10

  /** Dimensions that make a non-negative image. */
  predicate Sane(d: Lcd)
  {
    d.rows >= 0 && d.cols >= 0 && d.charSize.w >= 0 && d.charSize.h >= 0 && d.charSep >= 0
  }

  /** Width of the display in dots, before scaling (note the literal 1, not charSep). */
  function PixelsW(d: Lcd): int
  {
    (d.cols * d.charSize.w) + ((d.cols * d.charSep) + 1)
  }

  /** Height of the display in dots, before scaling. */
  function PixelsH(d: Lcd): int
  {
    (d.rows * d.charSize.h) + ((d.rows * d.charSep) + 1)
  }

  function CharX1(d: Lcd, c: int): int
  {
    ((c * (d.charSize.w + d.charSep)) + d.charSep) * ScaleFactor
  }

  function CharY1(d: Lcd, r: int): int
  {
    ((r * (d.charSize.h + d.charSep)) + d.charSep) * ScaleFactor
  }

  function CharX2(d: Lcd, c: int): int
  {
    ((c * (d.charSize.w + d.charSep)) + d.charSep + d.charSize.w) * ScaleFactor
  }

  function CharY2(d: Lcd, r: int): int
  {
    ((r * (d.charSize.h + d.charSep)) + d.charSep + d.charSize.h) * ScaleFactor
  }

  /** The fill of the whole image with the background colour. */
  function BackgroundFill(d: Lcd): Fill
  {
    Fill(0, 0, PixelsW(d) * ScaleFactor, PixelsH(d) * ScaleFactor, d.colorSet.background)
  }

  /** The pixelOff fill of cell (r, c). */
  function CellFill(d: Lcd, r: int, c: int): Fill
  {
    Fill(CharX1(d, c), CharY1(d, r), CharX2(d, c), CharY2(d, r), d.colorSet.pixelOff)
  }

  predicate InCell(d: Lcd, r: int, c: int, x: int, y: int)
  {
    CharX1(d, c) <= x < CharX2(d, c) && CharY1(d, r) <= y < CharY2(d, r)
  }

  /** Pixel (x, y) lies in no cell of the rows x cols grid. */
  predicate OutsideCells(d: Lcd, x: int, y: int)
  {
    forall r, c :: 0 <= r < d.rows && 0 <= c < d.cols ==> !InCell(d, r, c, x, y)
  }

  /** The fills painted for cell (r, c): its pixelOff rectangle, then its glyph's lit dots. */
  function CellOps(d: Lcd, grid: Grid, r: int, c: int): seq<Fill>
  {
    [CellFill(d, r, c)]
    + (if (r, c) in grid then Dots(grid[(r, c)], CharX1(d, c), CharY1(d, r), ScaleFactor, d.colorSet.pixelOn)
       else [])
  }

  /** The fills painted for cells (r, 0) .. (r, n-1). */
  function RowOps(d: Lcd, grid: Grid, r: int, n: int): seq<Fill>
    decreases n
  {
    if n <= 0 then [] else RowOps(d, grid, r, n - 1) + CellOps(d, grid, r, n - 1)
  }

  /** The fills painted for rows 0 .. n-1. */
  function GridOps(d: Lcd, grid: Grid, n: int): seq<Fill>
    decreases n
  {
    if n <= 0 then [] else GridOps(d, grid, n - 1) + RowOps(d, grid, n - 1, d.cols)
  }

  /** Everything `lcd.Draw` paints for a layout, in painting order. */
  function DrawOps(d: Lcd, grid: Grid): seq<Fill>
  {
    [BackgroundFill(d)] + GridOps(d, grid, d.rows)
  }

  /** The colour a pixel of cell (r, c) should have: pixelOn on a lit dot of its glyph, else pixelOff. */
  function CellPixel(d: Lcd, grid: Grid, r: int, c: int, x: int, y: int): Rgba
  {
    if (r, c) in grid && DotSet(grid[(r, c)], (x - CharX1(d, c)) / ScaleFactor, (y - CharY1(d, r)) / ScaleFactor)
    then d.colorSet.pixelOn
    else d.colorSet.pixelOff
  }

  /** Every glyph of the table fits a cell. */
  predicate FontFits(d: Lcd)
  {
    forall ch :: ch in d.fonttable ==> Fits(d.fonttable[ch], d.charSize.w, d.charSize.h)
  }

  /** Every glyph of the layout fits a cell. */
  predicate GridFits(d: Lcd, grid: Grid)
  {
    forall k :: k in grid ==> Fits(grid[k], d.charSize.w, d.charSize.h)
  }

  /** The part of a layout that lies on the display. */
  function Visible(d: Lcd, grid: Grid): Grid
  {
    map k | k in grid && 0 <= k.0 < d.rows && 0 <= k.1 < d.cols :: grid[k]
  }

  /**
   * `lcd.Draw`: the image is (PixelsW * 10) x (PixelsH * 10) pixels, whatever
   * the message, and shows the fills of `DrawOps` for the message's layout.
   * When every glyph fits its cell, a pixel of cell (r, c) is pixelOn exactly
   * on a lit dot of the glyph stored there and pixelOff otherwise, and a pixel
   * in no cell is background.
   */
  method Draw(d: Lcd, message: string) returns (img: Canvas)
    requires Sane(d) && OpaqueColours(d.colorSet)
    ensures fresh(img) && fresh(img.px)
    ensures img.px.Length0 == PixelsW(d) * ScaleFactor && img.px.Length1 == PixelsH(d) * ScaleFactor
    ensures img.Shows(DrawOps(d, GridOf(message, d.cols, d.fonttable)), Transparent)
    ensures FontFits(d) ==> forall r, c, x, y ::
      0 <= r < d.rows && 0 <= c < d.cols && InCell(d, r, c, x, y) && img.InBounds(x, y) ==>
        img.px[x, y] == CellPixel(d, GridOf(message, d.cols, d.fonttable), r, c, x, y)
    ensures FontFits(d) ==> forall x, y :: img.InBounds(x, y) && OutsideCells(d, x, y) ==>
      img.px[x, y] == d.colorSet.background
  {
    var glyphs := BuildGrid(message, d.cols, d.fonttable);
    img := Rasterize(d, glyphs);
    if FontFits(d) {
      LayoutFits(d, message);
      ImageColours(d, glyphs, img);
    }
  }

  /**
   * The rasterization pass of `lcd.Draw`: a new image of the display's size,
   * filled with the background, then every cell of the rows x cols grid in
   * row-major order.
   */
  method Rasterize(d: Lcd, glyphs: Grid) returns (img: Canvas)
    requires Sane(d) && OpaqueColours(d.colorSet)
    ensures fresh(img) && fresh(img.px)
    ensures img.px.Length0 == PixelsW(d) * ScaleFactor && img.px.Length1 == PixelsH(d) * ScaleFactor
    ensures img.Shows(DrawOps(d, glyphs), Transparent)
  {
    img := Background(d);
    assert [BackgroundFill(d)] == [BackgroundFill(d)] + GridOps(d, glyphs, 0);
    var r := 0;
    while r < d.rows
      invariant 0 <= r <= d.rows
      invariant img.Shows([BackgroundFill(d)] + GridOps(d, glyphs, r), Transparent)
    {
      ghost var before := GridOps(d, glyphs, r);
      DrawRow(img, d, glyphs, r, [BackgroundFill(d)] + before);
      assert GridOps(d, glyphs, r + 1) == before + RowOps(d, glyphs, r, d.cols);
      assert [BackgroundFill(d)] + before + RowOps(d, glyphs, r, d.cols)
          == [BackgroundFill(d)] + GridOps(d, glyphs, r + 1);
      r := r + 1;
    }
  }

  /** A new image of the display's size, filled with the background colour. */
  method Background(d: Lcd) returns (img: Canvas)
    requires Sane(d) && OpaqueColours(d.colorSet)
    ensures fresh(img) && fresh(img.px)
    ensures img.px.Length0 == PixelsW(d) * ScaleFactor && img.px.Length1 == PixelsH(d) * ScaleFactor
    ensures img.Shows([BackgroundFill(d)], Transparent)
  {
    var scalefactor := 10;
    var pixelsW := (d.cols * d.charSize.w) + ((d.cols * d.charSep) + 1);
    var pixelsH := (d.rows * d.charSize.h) + ((d.rows * d.charSep) + 1);
    PixelsPositive(d);
    img := new Canvas(pixelsW * scalefactor, pixelsH * scalefactor);
    img.Extend([], Transparent, Fill(0, 0, pixelsW * scalefactor, pixelsH * scalefactor, d.colorSet.background));
    assert [] + [BackgroundFill(d)] == [BackgroundFill(d)];
  }

  /** One iteration of the row loop: cells (r, 0) .. (r, cols-1) in order. */
  method DrawRow(img: Canvas, d: Lcd, glyphs: Grid, r: int, ghost done: seq<Fill>)
    requires d.cols >= 0 && OpaqueColours(d.colorSet) && img.Shows(done, Transparent)
    modifies img.px
    ensures img.Shows(done + RowOps(d, glyphs, r, d.cols), Transparent)
  {
    assert done + RowOps(d, glyphs, r, 0) == done;
    var c := 0;
    while c < d.cols
      invariant 0 <= c <= d.cols
      invariant img.Shows(done + RowOps(d, glyphs, r, c), Transparent)
    {
      ghost var before := RowOps(d, glyphs, r, c);
      DrawCell(img, d, glyphs, r, c, done + before);
      assert RowOps(d, glyphs, r, c + 1) == before + CellOps(d, glyphs, r, c);
      assert done + before + CellOps(d, glyphs, r, c) == done + RowOps(d, glyphs, r, c + 1);
      c := c + 1;
    }
  }

  lemma PixelsPositive(d: Lcd)
    requires Sane(d)
    ensures PixelsW(d) >= 1 && PixelsH(d) >= 1
  {
  }

  /** One iteration of the cell loop: the pixelOff rectangle of cell (r, c), then its glyph, if any. */
  method DrawCell(img: Canvas, d: Lcd, glyphs: Grid, r: int, c: int, ghost done: seq<Fill>)
    requires OpaqueColours(d.colorSet) && img.Shows(done, Transparent)
    modifies img.px
    ensures img.Shows(done + CellOps(d, glyphs, r, c), Transparent)
  {
    var scalefactor := 10;
    var charX1 := ((c * (d.charSize.w + d.charSep)) + d.charSep) * scalefactor;
    var charY1 := ((r * (d.charSize.h + d.charSep)) + d.charSep) * scalefactor;
    var charX2 := ((c * (d.charSize.w + d.charSep)) + d.charSep + d.charSize.w) * scalefactor;
    var charY2 := ((r * (d.charSize.h + d.charSep)) + d.charSep + d.charSize.h) * scalefactor;
    img.Extend(done, Transparent, Fill(charX1, charY1, charX2, charY2, d.colorSet.pixelOff));
    if (r, c) in glyphs {
      var g := glyphs[(r, c)];
      Glyphs.Draw(img, g, d.colorSet.pixelOn, charX1, charY1, scalefactor, done + [CellFill(d, r, c)], Transparent);
      assert done + [CellFill(d, r, c)] + Dots(g, charX1, charY1, scalefactor, d.colorSet.pixelOn)
          == done + CellOps(d, glyphs, r, c);
    } else {
      assert done + [CellFill(d, r, c)] == done + CellOps(d, glyphs, r, c);
    }
  }

  /**
   * An image that shows a layout's fills, with every glyph fitting its cell,
   * has pixelOn exactly on the lit dots, pixelOff elsewhere in the cells and
   * background everywhere else.
   */
  lemma ImageColours(d: Lcd, grid: Grid, img: Canvas)
    requires Sane(d) && GridFits(d, grid)
    requires img.px.Length0 == PixelsW(d) * ScaleFactor && img.px.Length1 == PixelsH(d) * ScaleFactor
    requires img.Shows(DrawOps(d, grid), Transparent)
    ensures forall r, c, x, y ::
      0 <= r < d.rows && 0 <= c < d.cols && InCell(d, r, c, x, y) && img.InBounds(x, y) ==>
        img.px[x, y] == CellPixel(d, grid, r, c, x, y)
    ensures forall x, y :: img.InBounds(x, y) && OutsideCells(d, x, y) ==>
      img.px[x, y] == d.colorSet.background
  {
    forall r, c, x, y | 0 <= r < d.rows && 0 <= c < d.cols && InCell(d, r, c, x, y) && img.InBounds(x, y)
      ensures img.px[x, y] == CellPixel(d, grid, r, c, x, y)
    {
      PixelInCell(d, grid, r, c, x, y);
    }
    forall x, y | img.InBounds(x, y) && OutsideCells(d, x, y)
      ensures img.px[x, y] == d.colorSet.background
    {
      PixelOutsideCells(d, grid, x, y);
    }
  }

  // ---------------------------------------------------------------------------
  // Geometry

  /** Cell (r, c) is w*10 x h*10 pixels and the next cell starts sep*10 pixels after it ends. */
  lemma CellGeometry(d: Lcd, r: int, c: int)
    ensures CharX2(d, c) - CharX1(d, c) == d.charSize.w * ScaleFactor
    ensures CharY2(d, r) - CharY1(d, r) == d.charSize.h * ScaleFactor
    ensures CharX1(d, c + 1) - CharX2(d, c) == d.charSep * ScaleFactor
    ensures CharY1(d, r + 1) - CharY2(d, r) == d.charSep * ScaleFactor
  {
    assert (c + 1) * (d.charSize.w + d.charSep) == c * (d.charSize.w + d.charSep) + d.charSize.w + d.charSep;
    assert (r + 1) * (d.charSize.h + d.charSep) == r * (d.charSize.h + d.charSep) + d.charSize.h + d.charSep;
  }

  /** Every cell of the rows x cols grid lies inside the image. */
  lemma CellInsideCanvas(d: Lcd, r: int, c: int)
    requires Sane(d) && 0 <= r < d.rows && 0 <= c < d.cols
    ensures 0 <= CharX1(d, c) && CharX2(d, c) <= PixelsW(d) * ScaleFactor
    ensures 0 <= CharY1(d, r) && CharY2(d, r) <= PixelsH(d) * ScaleFactor
  {
    SlotInside(c, d.cols, d.charSize.w, d.charSep);
    SlotInside(r, d.rows, d.charSize.h, d.charSep);
  }

  lemma SlotInside(i: int, n: int, size: int, sep: int)
    requires 0 <= i < n && size >= 0 && sep >= 0
    ensures 0 <= i * (size + sep) + sep
    ensures i * (size + sep) + sep + size <= n * size + n * sep + 1
  {
    MulStep(n - i, size + sep);
    assert (n - i) * (size + sep) == n * size + n * sep - i * (size + sep);
  }

  /** Along one axis, the slots [(i*(size+sep)+sep)*10, (i*(size+sep)+sep+size)*10) are disjoint. */
  lemma SlotsDisjoint(i: int, j: int, size: int, sep: int, v: int)
    requires size >= 0 && sep >= 0
    requires (i * (size + sep) + sep) * ScaleFactor <= v < (i * (size + sep) + sep + size) * ScaleFactor
    requires (j * (size + sep) + sep) * ScaleFactor <= v < (j * (size + sep) + sep + size) * ScaleFactor
    ensures i == j
  {
    if i < j {
      assert (j - i) * (size + sep) == j * (size + sep) - i * (size + sep);
      MulStep(j - i, size + sep);
    } else if j < i {
      assert (i - j) * (size + sep) == i * (size + sep) - j * (size + sep);
      MulStep(i - j, size + sep);
    }
  }

  /** No pixel lies in two cells. */
  lemma CellsDisjoint(d: Lcd, r: int, c: int, r': int, c': int, x: int, y: int)
    requires Sane(d) && InCell(d, r, c, x, y) && InCell(d, r', c', x, y)
    ensures r == r' && c == c'
  {
    SlotsDisjoint(c, c', d.charSize.w, d.charSep, x);
    SlotsDisjoint(r, r', d.charSize.h, d.charSep, y);
  }

  // ---------------------------------------------------------------------------
  // Final pixel colours

  /** What one cell paints: inside the cell the pixel's own colour, outside nothing (given the glyph fits). */
  lemma CellPaint(d: Lcd, grid: Grid, r: int, c: int, init: Rgba, x: int, y: int)
    requires Sane(d) && GridFits(d, grid)
    ensures Paint(CellOps(d, grid, r, c), init, x, y)
         == if InCell(d, r, c, x, y) then CellPixel(d, grid, r, c, x, y) else init
  {
    var cf := CellFill(d, r, c);
    var dots := if (r, c) in grid then Dots(grid[(r, c)], CharX1(d, c), CharY1(d, r), ScaleFactor, d.colorSet.pixelOn)
                else [];
    PaintAppend([cf], dots, init, x, y);
    assert [cf][..0] == [];
    var afterCell := Paint([cf], init, x, y);
    assert afterCell == if InCell(d, r, c, x, y) then d.colorSet.pixelOff else init;
    if (r, c) in grid {
      var g := grid[(r, c)];
      DotsColour(g, CharX1(d, c), CharY1(d, r), ScaleFactor, d.colorSet.pixelOn, afterCell, x, y);
      var col := (x - CharX1(d, c)) / ScaleFactor;
      var row := (y - CharY1(d, r)) / ScaleFactor;
      if DotSet(g, col, row) {
        DivSpan(x - CharX1(d, c), col, ScaleFactor);
        DivSpan(y - CharY1(d, r), row, ScaleFactor);
        CellGeometry(d, r, c);
        assert InCell(d, r, c, x, y);
      }
    } else {
      assert [cf] + dots == [cf];
    }
  }

  lemma CellPaintIn(d: Lcd, grid: Grid, r: int, c: int, init: Rgba, x: int, y: int)
    requires Sane(d) && GridFits(d, grid) && InCell(d, r, c, x, y)
    ensures Paint(CellOps(d, grid, r, c), init, x, y) == CellPixel(d, grid, r, c, x, y)
  {
    CellPaint(d, grid, r, c, init, x, y);
  }

  lemma CellPaintOut(d: Lcd, grid: Grid, r: int, c: int, init: Rgba, x: int, y: int)
    requires Sane(d) && GridFits(d, grid) && !InCell(d, r, c, x, y)
    ensures Paint(CellOps(d, grid, r, c), init, x, y) == init
  {
    CellPaint(d, grid, r, c, init, x, y);
  }

  lemma {:induction false} RowPaintIn(d: Lcd, grid: Grid, r: int, c0: int, n: int, init: Rgba, x: int, y: int)
    requires Sane(d) && GridFits(d, grid)
    requires 0 <= c0 < n && InCell(d, r, c0, x, y)
    ensures Paint(RowOps(d, grid, r, n), init, x, y) == CellPixel(d, grid, r, c0, x, y)
    decreases n
  {
    var prev := RowOps(d, grid, r, n - 1);
    var cell := CellOps(d, grid, r, n - 1);
    var mid := Paint(prev, init, x, y);
    assert RowOps(d, grid, r, n) == prev + cell;
    PaintAppend(prev, cell, init, x, y);
    if c0 == n - 1 {
      assert Paint(cell, mid, x, y) == CellPixel(d, grid, r, c0, x, y) by {
        CellPaintIn(d, grid, r, c0, mid, x, y);
      }
    } else {
      assert !InCell(d, r, n - 1, x, y) by {
        if InCell(d, r, n - 1, x, y) {
          CellsDisjoint(d, r, c0, r, n - 1, x, y);
        }
      }
      assert Paint(cell, mid, x, y) == mid by {
        CellPaintOut(d, grid, r, n - 1, mid, x, y);
      }
      assert mid == CellPixel(d, grid, r, c0, x, y) by {
        RowPaintIn(d, grid, r, c0, n - 1, init, x, y);
      }
    }
  }

  lemma {:induction false} RowPaintOut(d: Lcd, grid: Grid, r: int, n: int, init: Rgba, x: int, y: int)
    requires Sane(d) && GridFits(d, grid)
    requires forall c :: 0 <= c < n ==> !InCell(d, r, c, x, y)
    ensures Paint(RowOps(d, grid, r, n), init, x, y) == init
    decreases n
  {
    if n > 0 {
      var prev := RowOps(d, grid, r, n - 1);
      var cell := CellOps(d, grid, r, n - 1);
      assert Paint(prev, init, x, y) == init by {
        RowPaintOut(d, grid, r, n - 1, init, x, y);
      }
      assert Paint(cell, init, x, y) == init by {
        CellPaintOut(d, grid, r, n - 1, init, x, y);
      }
      assert RowOps(d, grid, r, n) == prev + cell;
      PaintAppend(prev, cell, init, x, y);
    }
  }


  /** A row other than the one holding the pixel's cell leaves the pixel alone. */
  lemma OtherRowPaint(d: Lcd, grid: Grid, r0: int, c0: int, r: int, init: Rgba, x: int, y: int)
    requires Sane(d) && GridFits(d, grid)
    requires InCell(d, r0, c0, x, y) && r != r0
    ensures Paint(RowOps(d, grid, r, d.cols), init, x, y) == init
  {
    if CharY1(d, r) <= y < CharY2(d, r) {
      SlotsDisjoint(r0, r, d.charSize.h, d.charSep, y);
    }
    RowPaintOut(d, grid, r, d.cols, init, x, y);
  }

  lemma {:induction false} GridPaintIn(d: Lcd, grid: Grid, r0: int, c0: int, n: int, init: Rgba, x: int, y: int)
    requires Sane(d) && GridFits(d, grid)
    requires 0 <= r0 < n && 0 <= c0 < d.cols && InCell(d, r0, c0, x, y)
    ensures Paint(GridOps(d, grid, n), init, x, y) == CellPixel(d, grid, r0, c0, x, y)
    decreases n
  {
    var prev := GridOps(d, grid, n - 1);
    var row := RowOps(d, grid, n - 1, d.cols);
    var mid := Paint(prev, init, x, y);
    assert GridOps(d, grid, n) == prev + row;
    PaintAppend(prev, row, init, x, y);
    if r0 == n - 1 {
      assert Paint(row, mid, x, y) == CellPixel(d, grid, r0, c0, x, y) by {
        RowPaintIn(d, grid, r0, c0, d.cols, mid, x, y);
      }
    } else {
      assert Paint(row, mid, x, y) == mid by {
        OtherRowPaint(d, grid, r0, c0, n - 1, mid, x, y);
      }
      assert mid == CellPixel(d, grid, r0, c0, x, y) by {
        GridPaintIn(d, grid, r0, c0, n - 1, init, x, y);
      }
    }
  }

  lemma {:induction false} GridPaintOut(d: Lcd, grid: Grid, n: int, init: Rgba, x: int, y: int)
    requires Sane(d) && GridFits(d, grid) && n <= d.rows && OutsideCells(d, x, y)
    ensures Paint(GridOps(d, grid, n), init, x, y) == init
    decreases n
  {
    if n > 0 {
      var prev := GridOps(d, grid, n - 1);
      var row := RowOps(d, grid, n - 1, d.cols);
      assert Paint(prev, init, x, y) == init by {
        GridPaintOut(d, grid, n - 1, init, x, y);
      }
      assert Paint(row, init, x, y) == init by {
        RowPaintOut(d, grid, n - 1, d.cols, init, x, y);
      }
      assert GridOps(d, grid, n) == prev + row;
      PaintAppend(prev, row, init, x, y);
    }
  }

  /**
   * A pixel of cell (r, c) ends up pixelOn exactly when it falls in the square
   * of a lit dot of the glyph stored at (r, c), and pixelOff otherwise.
   */
  lemma PixelInCell(d: Lcd, grid: Grid, r: int, c: int, x: int, y: int)
    requires Sane(d) && GridFits(d, grid)
    requires 0 <= r < d.rows && 0 <= c < d.cols && InCell(d, r, c, x, y)
    ensures Paint(DrawOps(d, grid), Transparent, x, y) == CellPixel(d, grid, r, c, x, y)
  {
    PaintAppend([BackgroundFill(d)], GridOps(d, grid, d.rows), Transparent, x, y);
    GridPaintIn(d, grid, r, c, d.rows, Paint([BackgroundFill(d)], Transparent, x, y), x, y);
  }

  /** A pixel of the image that lies in no cell ends up background. */
  lemma PixelOutsideCells(d: Lcd, grid: Grid, x: int, y: int)
    requires Sane(d) && GridFits(d, grid)
    requires 0 <= x < PixelsW(d) * ScaleFactor && 0 <= y < PixelsH(d) * ScaleFactor
    requires OutsideCells(d, x, y)
    ensures Paint(DrawOps(d, grid), Transparent, x, y) == d.colorSet.background
  {
    var bg := [BackgroundFill(d)];
    PaintAppend(bg, GridOps(d, grid, d.rows), Transparent, x, y);
    assert bg[..0] == [];
    GridPaintOut(d, grid, d.rows, Paint(bg, Transparent, x, y), x, y);
  }

  /** When the table's glyphs fit a cell, so do the layout's. */
  lemma {:induction false} LayoutFits(d: Lcd, msg: string)
    requires Sane(d) && FontFits(d)
    ensures GridFits(d, GridOf(msg, d.cols, d.fonttable))
  {
    if msg != [] {
      LayoutFits(d, msg[..|msg| - 1]);
    }
  }

  // ---------------------------------------------------------------------------
  // Palette: only the three colours of the colour set appear

  predicate OneOf(c: Rgba, a: Rgba, b: Rgba, e: Rgba)
  {
    c == a || c == b || c == e
  }

  lemma CellPalette(d: Lcd, grid: Grid, r: int, c: int, init: Rgba, x: int, y: int)
    ensures OneOf(Paint(CellOps(d, grid, r, c), init, x, y), init, d.colorSet.pixelOff, d.colorSet.pixelOn)
  {
    var cf := CellFill(d, r, c);
    var dots := if (r, c) in grid then Dots(grid[(r, c)], CharX1(d, c), CharY1(d, r), ScaleFactor, d.colorSet.pixelOn)
                else [];
    PaintAppend([cf], dots, init, x, y);
    assert [cf][..0] == [];
    if (r, c) in grid {
      DotsColour(grid[(r, c)], CharX1(d, c), CharY1(d, r), ScaleFactor, d.colorSet.pixelOn,
                 Paint([cf], init, x, y), x, y);
    } else {
      assert [cf] + dots == [cf];
    }
  }

  lemma {:induction false} RowPalette(d: Lcd, grid: Grid, r: int, n: int, init: Rgba, x: int, y: int)
    ensures OneOf(Paint(RowOps(d, grid, r, n), init, x, y), init, d.colorSet.pixelOff, d.colorSet.pixelOn)
    decreases n
  {
    if n > 0 {
      var prev := RowOps(d, grid, r, n - 1);
      var cell := CellOps(d, grid, r, n - 1);
      var mid := Paint(prev, init, x, y);
      assert OneOf(mid, init, d.colorSet.pixelOff, d.colorSet.pixelOn) by {
        RowPalette(d, grid, r, n - 1, init, x, y);
      }
      assert OneOf(Paint(cell, mid, x, y), mid, d.colorSet.pixelOff, d.colorSet.pixelOn) by {
        CellPalette(d, grid, r, n - 1, mid, x, y);
      }
      assert RowOps(d, grid, r, n) == prev + cell;
      PaintAppend(prev, cell, init, x, y);
    }
  }

  lemma {:induction false} GridPalette(d: Lcd, grid: Grid, n: int, init: Rgba, x: int, y: int)
    ensures OneOf(Paint(GridOps(d, grid, n), init, x, y), init, d.colorSet.pixelOff, d.colorSet.pixelOn)
    decreases n
  {
    if n > 0 {
      var prev := GridOps(d, grid, n - 1);
      var row := RowOps(d, grid, n - 1, d.cols);
      var mid := Paint(prev, init, x, y);
      assert OneOf(mid, init, d.colorSet.pixelOff, d.colorSet.pixelOn) by {
        GridPalette(d, grid, n - 1, init, x, y);
      }
      assert OneOf(Paint(row, mid, x, y), mid, d.colorSet.pixelOff, d.colorSet.pixelOn) by {
        RowPalette(d, grid, n - 1, d.cols, mid, x, y);
      }
      assert GridOps(d, grid, n) == prev + row;
      PaintAppend(prev, row, init, x, y);
    }
  }

  /** Every pixel of the image is background, pixelOff or pixelOn; nothing else appears. */
  lemma ThreeColours(d: Lcd, grid: Grid, x: int, y: int)
    requires 0 <= x < PixelsW(d) * ScaleFactor && 0 <= y < PixelsH(d) * ScaleFactor
    ensures OneOf(Paint(DrawOps(d, grid), Transparent, x, y),
                  d.colorSet.background, d.colorSet.pixelOff, d.colorSet.pixelOn)
  {
    var bg := [BackgroundFill(d)];
    PaintAppend(bg, GridOps(d, grid, d.rows), Transparent, x, y);
    assert bg[..0] == [];
    GridPalette(d, grid, d.rows, Paint(bg, Transparent, x, y), x, y);
  }

  // ---------------------------------------------------------------------------
  // Layout entries off the display

  lemma {:induction false} RowOpsVisible(d: Lcd, grid: Grid, r: int, n: int)
    requires 0 <= r < d.rows && n <= d.cols
    ensures RowOps(d, grid, r, n) == RowOps(d, Visible(d, grid), r, n)
    decreases n
  {
    if n > 0 {
      RowOpsVisible(d, grid, r, n - 1);
      assert CellOps(d, grid, r, n - 1) == CellOps(d, Visible(d, grid), r, n - 1);
    }
  }

  lemma {:induction false} GridOpsVisible(d: Lcd, grid: Grid, n: int)
    requires n <= d.rows
    ensures GridOps(d, grid, n) == GridOps(d, Visible(d, grid), n)
    decreases n
  {
    if n > 0 {
      GridOpsVisible(d, grid, n - 1);
      RowOpsVisible(d, grid, n - 1, d.cols);
    }
  }

  /**
   * Layout entries outside the rows x cols grid (rows at or beyond `rows`)
   * are never painted: the drawing equals that of the visible part alone.
   */
  lemma OffDisplayIgnored(d: Lcd, grid: Grid)
    ensures DrawOps(d, grid) == DrawOps(d, Visible(d, grid))
  {
    GridOpsVisible(d, grid, d.rows);
  }

  /**
   * A message whose unknown characters are replaced by '?' draws the same
   * fills, so (by `Draw`'s postcondition) the same image.
   */
  lemma UnknownDrawsAsQuestionMark(d: Lcd, msg: string, msg': string)
    requires |msg'| == |msg|
    requires forall i :: 0 <= i < |msg| ==>
      msg'[i] == msg[i] || (msg[i] !in d.fonttable && msg[i] != '\n' && msg'[i] == '?')
    ensures DrawOps(d, GridOf(msg', d.cols, d.fonttable)) == DrawOps(d, GridOf(msg, d.cols, d.fonttable))
  {
    UnknownAsQuestionMark(msg, msg', d.cols, d.fonttable);
  }
}
