/**
 * Pixel buffer and exact rectangle fills.
 *
 * The renderer draws every shape as a closed axis-aligned rectangle path
 * (`rect`) followed by a solid fill with line width 0. All corner coordinates
 * are integer multiples of the scale factor, so each fill paints exactly the
 * half-open integer rectangle [x1, x2) x [y1, y2), clipped to the image.
 */
module Raster {

  type uint8 = x: int | 0 <= x < 256

  /** An RGBA colour with 8-bit channels. */
  datatype Rgba = Rgba(r: uint8, g: uint8, b: uint8, a: uint8)

  /** The colour of every pixel of a freshly allocated image. */
  const Transparent := Rgba(0, 0, 0, 0)

  /**
   * A fully opaque colour. The graphic context composites each fill over the
   * image (Porter-Duff "over"); for an opaque colour over a fully covered pixel
   * that is plain replacement, which is what `Paint` models.
   */
  predicate Opaque(c: Rgba)
  {
    c.a == 255
  }

  /**
   * One `rect` + `Fill` with corners (x1, y1) and (x2, y2), painted in `color`.
   * The path is the same closed rectangle whichever way round the corners are
   * given, so the filled area is the half-open span between the smaller and
   * the larger coordinate on each axis.
   */
  datatype Fill = Fill(x1: int, y1: int, x2: int, y2: int, color: Rgba)

  function Lo(a: int, b: int): int
  {
    if a <= b then a else b
  }

  function Hi(a: int, b: int): int
  {
    if a <= b then b else a
  }

  predicate Covers(f: Fill, x: int, y: int)
  {
    Lo(f.x1, f.x2) <= x < Hi(f.x1, f.x2) && Lo(f.y1, f.y2) <= y < Hi(f.y1, f.y2)
  }

  /**
   * The colour of pixel (x, y) after the fills `ops` have been painted in
   * order over a pixel that was `init`: the last fill covering it wins.
   */
  function Paint(ops: seq<Fill>, init: Rgba, x: int, y: int): Rgba
    decreases |ops|
  {
    if ops == [] then init
    else if Covers(ops[|ops| - 1], x, y) then ops[|ops| - 1].color
    else Paint(ops[..|ops| - 1], init, x, y)
  }

  /** Painting `a` and then `b` is painting `b` over the result of `a`. */
  lemma {:induction false} PaintAppend(a: seq<Fill>, b: seq<Fill>, init: Rgba, x: int, y: int)
    ensures Paint(a + b, init, x, y) == Paint(b, Paint(a, init, x, y), x, y)
    decreases |b|
  {
    if b == [] {
      assert a + b == a;
    } else {
      var b' := b[..|b| - 1];
      assert (a + b)[..|a + b| - 1] == a + b';
      PaintAppend(a, b', init, x, y);
    }
  }

  /** The order in which the two corners are given does not change what a fill covers. */
  lemma CornerOrder(f: Fill, x: int, y: int)
    ensures Covers(f, x, y) <==> Covers(Fill(f.x2, f.y2, f.x1, f.y1, f.color), x, y)
  {
  }

  /** The image buffer that the graphic context paints into. */
  class Canvas {
    const px: array2<Rgba>

    /** A new image of the given size, every pixel transparent black. */
    constructor (width: nat, height: nat)
      ensures px.Length0 == width && px.Length1 == height && fresh(px)
      ensures forall x, y :: 0 <= x < width && 0 <= y < height ==> px[x, y] == Transparent
    {
      px := new Rgba[width, height]((x, y) => Transparent);
    }

    predicate InBounds(x: int, y: int)
    {
      0 <= x < px.Length0 && 0 <= y < px.Length1
    }

    /** Every pixel of the image has the colour that painting `ops` over `init` gives. */
    ghost predicate Shows(ops: seq<Fill>, init: Rgba)
      reads px
    {
      forall x, y :: InBounds(x, y) ==> px[x, y] == Paint(ops, init, x, y)
    }

    /** Paints `f`, an opaque fill, into the image; pixels outside the image are dropped. */
    method FillRect(f: Fill)
      requires Opaque(f.color)
      modifies px
      ensures forall x, y :: InBounds(x, y) ==>
        px[x, y] == if Covers(f, x, y) then f.color else old(px[x, y])
    {
      var xlo := Hi(0, Lo(f.x1, f.x2));
      var xhi := Lo(px.Length0, Hi(f.x1, f.x2));
      var ylo := Hi(0, Lo(f.y1, f.y2));
      var yhi := Lo(px.Length1, Hi(f.y1, f.y2));
      if xhi < xlo { xhi := xlo; }
      if yhi < ylo { yhi := ylo; }
      var x := xlo;
      while x < xhi
        invariant xlo <= x <= xhi
        invariant forall i, j :: InBounds(i, j) ==>
          px[i, j] == if xlo <= i < x && ylo <= j < yhi then f.color else old(px[i, j])
      {
        var y := ylo;
        while y < yhi
          invariant ylo <= y <= yhi
          invariant forall i, j :: InBounds(i, j) ==>
            px[i, j] == if (xlo <= i < x && ylo <= j < yhi) || (i == x && ylo <= j < y)
                        then f.color else old(px[i, j])
        {
          px[x, y] := f.color;
          y := y + 1;
        }
        x := x + 1;
      }
    }

    /** Paints `f` and keeps the image equal to the painting of the fills so far. */
    method Extend(ghost ops: seq<Fill>, ghost init: Rgba, f: Fill)
      requires Shows(ops, init) && Opaque(f.color)
      modifies px
      ensures Shows(ops + [f], init)
    {
      FillRect(f);
      assert (ops + [f])[..|ops|] == ops;
    }
  }
}
