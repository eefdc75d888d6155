# lcdscreenshot in Dafny

A model of `lcd.Draw` and `glyph.draw` from `main.go` of lcdscreenshot. The program renders a text message as a picture of a character LCD (by default 2 rows of 16 cells, 5 x 7 dots per cell, 1 dot of spacing), scaled up 10 times.

The project has four modules:

- `Raster` (`raster.dfy`): the image buffer (`Canvas`, an `array2<Rgba>`) and one `rect` + `Fill` modelled as an exact fill of the half-open integer rectangle between its two corners (in either order), clipped to the image. `Paint(ops, init, x, y)` gives the colour of one pixel after a sequence of fills: the last fill that covers the pixel wins. This is what compositing gives when every fill colour is opaque (`Opaque`: alpha 255), as all three colours of the standard colour set are (main.go:41-45). Every painting method is specified by the fills it adds to that sequence (`Canvas.Shows`).
- `Glyphs` (`glyphs.dfy`): a glyph is a sequence of column bytes. Bit `row` of byte `col` lights dot `(col, row)`. `Draw` is `glyph.draw`: one loop over the column bytes and, inside it, one loop over the 8 bit rows. Each lit dot becomes a scale x scale square.
- `Layout` (`layout.dfy`): the layout loop of `lcd.Draw`. A `(row, col)` cursor walks the message and fills a sparse grid, modelled as `map<(int, int), Glyph>`. `BuildGrid` is the loop. It is proved equal to `GridOf`, a fold over the message built on `CursorAfter`, and the layout lemmas are stated about `GridOf`.
- `Display` (`display.dfy`): the LCD record, the canvas and cell geometry, and the paint order. `Draw` builds the grid and calls `Rasterize`, whose nested row and cell loops are `DrawRow` and `DrawCell`. The lemmas derive the final colour of every pixel from the paint order.

Behaviour of the code that a reader might not expect. The model follows the code in each case:

- The canvas is `(cols*w + cols*sep + 1) * 10` wide, with a literal `+ 1`, not `+ sep`. The same holds for the height. The trailing margin is one dot wide whatever the separation (main.go:90-91).
- A character at a row at or beyond `rows` is still stored in the grid, because there is no bounds check. It is never painted (`Display.OffDisplayIgnored`).
- If the table has no `'?'` entry this is not an error. An unknown character then gets Go's zero-value glyph, which has no columns and draws nothing (`Layout.Lookup`).
- `glyph.draw` paints every byte of `data` and all 8 bit rows, not just `w x h` dots. A glyph wider than `w`, or with a bit set at row `h` or below, paints outside its cell. Such dots can be overpainted by a later cell's pixelOff rectangle. `Display.Draw` states the image exactly for any table, through `DrawOps`. The simple per-pixel description needs every glyph to fit its cell (`Glyphs.Fits`).

## Model

| member | source | states |
|---|---|---|
| `Raster.Canvas.constructor` | main.go:92 | a new image of the given size, every pixel transparent black |
| `Raster.Canvas.FillRect` | main.go:55-61 | `rect` + `Fill` in an opaque colour paints exactly the pixels between the two corners, [min(x1,x2), max(x1,x2)) x [min(y1,y2), max(y1,y2)), inside the image and leaves every other pixel unchanged |
| `Raster.Canvas.Extend` | main.go:97 | used for every `Fill` (main.go:25, 97 and 112): one more opaque fill keeps the image equal to the painting of all fills so far, the new one last |
| `Raster.CornerOrder` | main.go:55-61 | a rectangle covers the same pixels whichever way round its corners are given, as the closed `rect` path does |
| `Raster.PaintAppend` | main.go:94-117 | painting one sequence of fills and then another is painting the second over the result of the first |
| `Glyphs.Draw` | main.go:19-29 | after `glyph.draw` the image shows the earlier fills followed by one square per lit dot, column by column |
| `Glyphs.DrawColumn` | main.go:22-27 | the inner loop adds one square for each set bit of the column byte, rows 0 to 7 in order |
| `Glyphs.DivSpan` | main.go:24 | arithmetic helper: the square with index q along an axis holds coordinate v exactly when v / scale == q |
| `Glyphs.ColumnDotsColour` | main.go:22-27 | one column lights a pixel exactly when the pixel's x square is that column and its y square is a set bit |
| `Glyphs.GlyphDotsColour` | main.go:21-28 | the first n columns light a pixel exactly when the pixel's column is below n and its bit is set |
| `Glyphs.DotsColour` | main.go:19-29 | drawing a glyph at (x, y) lights pixel (px, py) exactly when dot ((px-x)/scale, (py-y)/scale) is set; other pixels keep their colour |
| `Layout.BuildGrid` | main.go:64-88 | the layout loop computes `GridOf(message)`; every stored key has a non-negative row and, when cols > 0, a column in [0, cols) |
| `Layout.NewlineMovesDown` | main.go:68-72 | a newline moves the cursor to column 0 of the next row from any column and stores nothing |
| `Layout.CursorInRange` | main.go:66-87 | with cols > 0 the cursor column stays in [0, cols) and its row is never negative |
| `Layout.KeysBeforeCursor` | main.go:65-88 | every stored key lies before the cursor in row-major order, has non-negative coordinates and a column below cols |
| `Layout.CursorMovesForward` | main.go:68-87 | the cursor strictly advances in row-major order, so no cell is written twice |
| `Layout.CharStoredAtCursor` | main.go:73-82 | each non-newline character's glyph (after fallback) is stored at the cursor where it was read, and survives to the end |
| `Layout.KeyFromChar` | main.go:65-88 | every stored key is the cursor of some non-newline character |
| `Layout.GridContents` | main.go:64-88 | the grid holds exactly the cursors of the non-newline characters, each with that character's looked-up glyph |
| `Layout.DivModUnique` | main.go:83-87 | arithmetic helper: quotient and remainder are unique, the fact behind the row/column of the i-th character |
| `Layout.DivModNext` | main.go:83-87 | arithmetic helper: moving from i to i + 1 either advances the column (i % cols) or wraps it to 0 and advances the row (i / cols) |
| `Layout.CursorWithoutNewlines` | main.go:83-87 | without newlines, character i is read at cursor (i / cols, i % cols) |
| `Layout.PlacementWithoutNewlines` | main.go:73-87 | without newlines, character i is stored at (i / cols, i % cols) with its looked-up glyph, for any row |
| `Layout.UnknownAsQuestionMark` | main.go:77-81 | replacing characters missing from the table by '?' changes neither the grid nor the cursor |
| `Layout.FullRowThenNewline` | main.go:68-70 | starting at column 0 of row R, cols characters fill row R and a newline then lands on row R + 2, so row R + 1 stays empty |
| `Layout.FillRow` | main.go:83-87 | from column 0 of row R, j <= cols characters occupy (R, 0..j-1), and the cursor wraps to (R + 1, 0) at j = cols |
| `Layout.NewlineExample` | main.go:64-88 | "A\nB" stores 'A' at (0, 0) and 'B' at (1, 0) and nothing else |
| `Layout.HelloExample` | main.go:64-88 | on 16 columns "HELLO" stores H, E, L, L, O at (0, 0) .. (0, 4) and nothing else |
| `Display.Draw` | main.go:63-121 | for opaque colours, the image is a fresh buffer of `PixelsW*10 x PixelsH*10` for every message and shows `DrawOps` of the message's grid. When the glyphs fit their cells, a cell pixel is pixelOn exactly on a lit dot and pixelOff otherwise, and any other pixel is background |
| `Display.Rasterize` | main.go:89-117 | the image is a fresh buffer of the canvas size and shows the background fill, then every cell of rows x cols in row-major order |
| `Display.Background` | main.go:89-97 | a fresh image of `PixelsW*10 x PixelsH*10` pixels, every pixel painted with the background colour |
| `Display.DrawRow` | main.go:99-116 | the cell loop adds the fills of cells (r, 0) .. (r, cols-1) in order |
| `Display.DrawCell` | main.go:100-115 | one cell adds its pixelOff rectangle, then its glyph's dots when the grid holds a glyph there |
| `Display.ImageColours` | main.go:94-117 | an image showing `DrawOps` has, in every cell, pixelOn exactly on lit dots and pixelOff elsewhere, and background outside all cells |
| `Display.PixelsPositive` | main.go:90-92 | arithmetic helper: with non-negative dimensions the canvas is at least one dot in each direction |
| `Display.CellGeometry` | main.go:100-103 | cell (r, c) is w*10 x h*10 pixels, and the next cell starts sep*10 pixels after it ends, in both directions |
| `Display.SlotInside` | main.go:90-91 | arithmetic helper: along one axis, slot i < n ends at or before n*size + n*sep + 1 dots |
| `Display.CellInsideCanvas` | main.go:90-103 | every cell with r < rows and c < cols lies inside the canvas |
| `Display.SlotsDisjoint` | main.go:100-103 | two slots along one axis that share a coordinate have the same index |
| `Display.CellsDisjoint` | main.go:100-103 | no pixel lies in two cells |
| `Display.CellPaint` | main.go:104-115 | when the cell's glyph fits, one cell's fills give a pixel inside it its cell colour and leave a pixel outside it alone |
| `Display.CellPaintIn` | main.go:104-115 | for a pixel inside the cell, the cell's fills give pixelOn on a lit dot and pixelOff otherwise, whatever was there before |
| `Display.CellPaintOut` | main.go:104-115 | a cell whose glyph fits does not touch pixels outside it |
| `Display.RowPaintIn` | main.go:99-116 | a row's fills give a pixel of its cell c0 that cell's colour |
| `Display.RowPaintOut` | main.go:99-116 | a row's fills leave a pixel that lies in none of its cells unchanged |
| `Display.OtherRowPaint` | main.go:98-117 | a row other than the one holding the pixel's cell does not touch the pixel |
| `Display.GridPaintIn` | main.go:98-117 | the fills of rows 0..n-1 give a pixel of cell (r0, c0), with r0 < n, that cell's colour |
| `Display.GridPaintOut` | main.go:98-117 | the fills of the rows leave a pixel outside every cell unchanged |
| `Display.PixelInCell` | main.go:94-117 | after all painting, a pixel of cell (r, c) is pixelOn exactly when it is in the square of a set bit of the glyph stored at (r, c), and pixelOff otherwise |
| `Display.PixelOutsideCells` | main.go:94-97 | after all painting, a canvas pixel outside every cell is background |
| `Display.LayoutFits` | main.go:77-81 | when every glyph of the table fits a cell, so does every glyph of the layout, the fallback included |
| `Display.CellPalette` | main.go:104-115 | a cell's fills leave a pixel either unchanged, pixelOff or pixelOn |
| `Display.RowPalette` | main.go:99-116 | a row's fills leave a pixel either unchanged, pixelOff or pixelOn |
| `Display.GridPalette` | main.go:98-117 | all rows' fills leave a pixel either unchanged, pixelOff or pixelOn |
| `Display.ThreeColours` | main.go:94-117 | every canvas pixel ends up background, pixelOff or pixelOn, with no other colour, for any table |
| `Display.RowOpsVisible` | main.go:99-113 | a row's fills depend only on grid entries with a column in [0, cols) |
| `Display.GridOpsVisible` | main.go:98-113 | the rows' fills depend only on grid entries inside rows x cols |
| `Display.OffDisplayIgnored` | main.go:98-99 | the drawing of a grid equals that of its part inside rows x cols, so entries at off-display rows never affect any pixel |
| `Display.UnknownDrawsAsQuestionMark` | main.go:77-81 | replacing unknown characters by '?' gives the same fills, and so the same image |

## Left out

- The draw2d path rasterizer, line width and anti-aliasing. Every corner coordinate is a multiple of the scale factor 10, so each `rect` + `Fill` is modelled as an exact integer rectangle fill, clipped to the image.
- PNG encoding, creating `lcd.png` and the deferred close. This is I/O, and its errors are ignored in the code.
- Argument handling, the usage message and the exit status of `main`. In `main` the arguments are joined with `"\n"`; `Draw` takes any message.
- The debug print of an unknown character. It is I/O with no effect on the image.
- The font's bitmap data. It is not part of this model; the table is an arbitrary `map<char, Glyph>` in the `Lcd` record.
- The UTF-8 decoding done by `range message`. The message is taken as a sequence of already decoded characters.
- The concrete colour values of `colorSetStandard`. The three colours are parameters in `ColorSet`.
- 64-bit `int` overflow in the cursor and geometry arithmetic. Integers are unbounded in the model.
- Display.Draw: requires non-negative rows, cols, w, h and separation (`Sane`). A negative width or height of the canvas makes Go's `image.Rect` swap the corners, so the image's origin is not (0, 0). Other negative settings, such as a negative separation with a positive canvas size, give an ordinary image but cells that overlap or run backwards, and the cell lemmas do not cover that. `main` always passes 2 rows, 16 columns, 5 x 7 dots and separation 1 (main.go:128-135).
- Display.Draw: requires the three colours to be opaque (`OpaqueColours`). draw2d composites each fill over the image (Porter-Duff "over"), so a translucent colour would blend with what is below it. The model does not capture that blending arithmetic, so `Paint` and every lemma about it describe opaque fills only. The standard colour set is opaque.
- Display.Draw: the per-pixel description (pixelOn, pixelOff, background) holds only when every glyph of the table fits its cell (`FontFits`). For other tables the postcondition gives the image only through `Paint` of `DrawOps`.
- The nested map `glyphs[row][col]` and the creation of each row's inner map are flattened into one map keyed by `(row, col)`. Lookups give the same results.
