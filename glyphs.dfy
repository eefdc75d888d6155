/**
 * Dot-matrix glyphs and `glyph.draw`.
 *
 * A glyph is a sequence of column bytes; bit `row` of byte `col` lights the
 * dot in column `col`, row `row`. Drawing paints one scale x scale square per
 * lit dot, column by column and, within a column, row 0 to 7.
 */
module Glyphs {
  import opened Raster

  datatype Glyph = Glyph(data: seq<bv8>)

  /** Go's zero-value glyph: no columns, so it draws nothing. */
  const Blank := Glyph([])

  type FontTable = map<char, Glyph>

  /** Bit `row` of a column byte is set (only rows 0 to 7 exist). */
  predicate Bit(b: bv8, row: int)
  {
    0 <= row < 8 && b & (1 << row) != 0
  }

  /** The dot in column `col`, row `row` of a glyph is lit. */
  predicate DotSet(g: Glyph, col: int, row: int)
  {
    0 <= col < |g.data| && Bit(g.data[col], row)
  }

  /** The square painted for dot (col, row) of a glyph drawn at (x, y). */
  function Dot(x: int, y: int, col: int, row: int, scale: int, colour: Rgba): Fill
  {
    Fill(x + col * scale, y + row * scale, x + (col + 1) * scale, y + (row + 1) * scale, colour)
  }

  /** The fills for rows 0 .. n-1 of column `col`, in painting order. */
  function ColumnDots(b: bv8, col: int, x: int, y: int, scale: int, colour: Rgba, n: nat): seq<Fill>
    requires n <= 8
  {
    if n == 0 then []
    else ColumnDots(b, col, x, y, scale, colour, n - 1)
         + (if Bit(b, n - 1) then [Dot(x, y, col, n - 1, scale, colour)] else [])
  }

  /** The fills for columns 0 .. n-1 of `data`, in painting order. */
  function GlyphDots(data: seq<bv8>, x: int, y: int, scale: int, colour: Rgba, n: nat): seq<Fill>
    requires n <= |data|
  {
    if n == 0 then []
    else GlyphDots(data, x, y, scale, colour, n - 1) + ColumnDots(data[n - 1], n - 1, x, y, scale, colour, 8)
  }

  /** Every fill of a glyph. */
  function Dots(g: Glyph, x: int, y: int, scale: int, colour: Rgba): seq<Fill>
  {
    GlyphDots(g.data, x, y, scale, colour, |g.data|)
  }

  /** A glyph fits a w x h cell: at most w columns and no lit dot in a row >= h. */
  predicate Fits(g: Glyph, w: int, h: int)
  {
    |g.data| <= w && forall col, row :: 0 <= col < |g.data| && h <= row < 8 ==> !Bit(g.data[col], row)
  }

  /** The square of index q along one axis, [q*s, (q+1)*s), holds v exactly when v / s == q. */
  lemma DivSpan(v: int, q: int, s: int)
    requires s > 0
    ensures (q * s <= v < (q + 1) * s) <==> v / s == q
  {
    var d, m := v / s, v % s;
    assert v == d * s + m && 0 <= m < s;
    if q < d {
      MulStep(d - q, s);
      assert (q + 1) * s <= d * s;
    } else if q > d {
      MulStep(q - d, s);
      assert d * s + s <= q * s;
    }
  }

  lemma MulStep(k: int, s: int)
    requires k >= 1 && s >= 0
    ensures k * s >= s
  {
  }

  /** What one column paints at pixel (x, y). */
  lemma {:induction false} ColumnDotsColour(b: bv8, col: int, x0: int, y0: int, scale: int, colour: Rgba,
                                            n: nat, init: Rgba, x: int, y: int)
    requires n <= 8 && scale > 0
    ensures Paint(ColumnDots(b, col, x0, y0, scale, colour, n), init, x, y)
         == if (x - x0) / scale == col && (y - y0) / scale < n && Bit(b, (y - y0) / scale)
            then colour else init
  {
    if n > 0 {
      var prev := ColumnDots(b, col, x0, y0, scale, colour, n - 1);
      assert Paint(prev, init, x, y)
          == if (x - x0) / scale == col && (y - y0) / scale < n - 1 && Bit(b, (y - y0) / scale)
             then colour else init by {
        ColumnDotsColour(b, col, x0, y0, scale, colour, n - 1, init, x, y);
      }
      if Bit(b, n - 1) {
        var f := Dot(x0, y0, col, n - 1, scale, colour);
        assert ColumnDots(b, col, x0, y0, scale, colour, n) == prev + [f];
        assert (prev + [f])[..|prev|] == prev;
        assert Covers(f, x, y) <==> (x - x0) / scale == col && (y - y0) / scale == n - 1 by {
          DivSpan(x - x0, col, scale);
          DivSpan(y - y0, n - 1, scale);
        }
      } else {
        assert ColumnDots(b, col, x0, y0, scale, colour, n) == prev + [];
        assert prev + [] == prev;
      }
    }
  }

  /** What columns 0 .. n-1 paint at pixel (x, y). */
  lemma {:induction false} GlyphDotsColour(data: seq<bv8>, x0: int, y0: int, scale: int, colour: Rgba,
                                           n: nat, init: Rgba, x: int, y: int)
    requires n <= |data| && scale > 0
    ensures Paint(GlyphDots(data, x0, y0, scale, colour, n), init, x, y)
         == if 0 <= (x - x0) / scale < n && Bit(data[(x - x0) / scale], (y - y0) / scale)
            then colour else init
  {
    if n > 0 {
      var prev := GlyphDots(data, x0, y0, scale, colour, n - 1);
      var col := ColumnDots(data[n - 1], n - 1, x0, y0, scale, colour, 8);
      PaintAppend(prev, col, init, x, y);
      GlyphDotsColour(data, x0, y0, scale, colour, n - 1, init, x, y);
      ColumnDotsColour(data[n - 1], n - 1, x0, y0, scale, colour, 8, Paint(prev, init, x, y), x, y);
    }
  }

  /**
   * Drawing a glyph with its top-left corner at (x, y) lights pixel (px, py)
   * exactly when the dot whose square holds it is set; every other pixel keeps
   * its colour.
   */
  lemma DotsColour(g: Glyph, x: int, y: int, scale: int, colour: Rgba, init: Rgba, px: int, py: int)
    requires scale > 0
    ensures Paint(Dots(g, x, y, scale, colour), init, px, py)
         == if DotSet(g, (px - x) / scale, (py - y) / scale) then colour else init
  {
    GlyphDotsColour(g.data, x, y, scale, colour, |g.data|, init, px, py);
  }

  /**
   * `glyph.draw`: paints every lit dot of `g` as a scale x scale square at
   * (x, y). An image showing the fills `ops` afterwards shows `ops` followed by
   * the glyph's dots.
   */
  method Draw(canvas: Canvas, g: Glyph, colour: Rgba, x: int, y: int, scalefactor: int,
              ghost ops: seq<Fill>, ghost init: Rgba)
    requires canvas.Shows(ops, init) && Opaque(colour)
    modifies canvas.px
    ensures canvas.Shows(ops + Dots(g, x, y, scalefactor, colour), init)
  {
    var col := 0;
    assert ops + GlyphDots(g.data, x, y, scalefactor, colour, 0) == ops;
    while col < |g.data|
      invariant 0 <= col <= |g.data|
      invariant canvas.Shows(ops + GlyphDots(g.data, x, y, scalefactor, colour, col), init)
    {
      ghost var before := GlyphDots(g.data, x, y, scalefactor, colour, col);
      DrawColumn(canvas, g.data[col], col, colour, x, y, scalefactor, ops + before, init);
      assert GlyphDots(g.data, x, y, scalefactor, colour, col + 1)
          == before + ColumnDots(g.data[col], col, x, y, scalefactor, colour, 8);
      assert ops + before + ColumnDots(g.data[col], col, x, y, scalefactor, colour, 8)
          == ops + GlyphDots(g.data, x, y, scalefactor, colour, col + 1);
      col := col + 1;
    }
  }

  /** The inner loop of `glyph.draw`: bit rows 0 to 7 of one column byte. */
  method DrawColumn(canvas: Canvas, coldata: bv8, col: int, colour: Rgba, x: int, y: int, scalefactor: int,
                    ghost ops: seq<Fill>, ghost init: Rgba)
    requires canvas.Shows(ops, init) && Opaque(colour)
    modifies canvas.px
    ensures canvas.Shows(ops + ColumnDots(coldata, col, x, y, scalefactor, colour, 8), init)
  {
    var row := 0;
    assert ops + ColumnDots(coldata, col, x, y, scalefactor, colour, 0) == ops;
    while row < 8
      invariant 0 <= row <= 8
      invariant canvas.Shows(ops + ColumnDots(coldata, col, x, y, scalefactor, colour, row), init)
    {
      ghost var column := ColumnDots(coldata, col, x, y, scalefactor, colour, row);
      if coldata & (1 << row) != 0 {
        var f := Dot(x, y, col, row, scalefactor, colour);
        canvas.Extend(ops + column, init, f);
        assert ColumnDots(coldata, col, x, y, scalefactor, colour, row + 1) == column + [f];
        assert ops + column + [f] == ops + (column + [f]);
      } else {
        assert ColumnDots(coldata, col, x, y, scalefactor, colour, row + 1) == column + [];
        assert column + [] == column;
      }
      row := row + 1;
    }
  }
}
