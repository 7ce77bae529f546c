/** Decoded images and the two compositing operations the workers perform:
    placing three images side by side, and padding an image onto a larger
    canvas.

    A decoded PNG's bounds start at the origin, so an image is an `array2`
    indexed `[x, y]`: `Length0` is its `Max.X` (width) and `Length1` its
    `Max.Y` (height). A fresh canvas is filled with the zero pixel. */
module Raster {

  newtype byte = x: int | 0 <= x < 256

  /** One pixel; pixels are copied verbatim, never converted. */
  datatype Rgba = Rgba(r: byte, g: byte, b: byte, a: byte)

  /** The value of every pixel of a newly allocated canvas (transparent black). */
  const Zero: Rgba := Rgba(0, 0, 0, 0)

  /** The larger of two integers. */
  function IntMax(i1: int, i2: int): (r: int)
    ensures r >= i1 && r >= i2
    ensures r == i1 || r == i2
  {
    if i1 > i2 then i1 else i2
  }

  function Min(a: int, b: int): int
  {
    if a < b then a else b
  }

  /** Copies `src` onto `dst` with its origin at column `dx`, top-aligned,
      clipped to `dst`; every other pixel of `dst` is left as it was. */
  method Draw(dst: array2<Rgba>, src: array2<Rgba>, dx: nat)
    requires dst != src
    modifies dst
    ensures forall x, y :: 0 <= x < dst.Length0 && 0 <= y < dst.Length1 ==>
      dst[x, y] == if dx <= x < dx + src.Length0 && y < src.Length1 then src[x - dx, y] else old(dst[x, y])
  {
    var w := if dx >= dst.Length0 then 0 else Min(src.Length0, dst.Length0 - dx);
    var h := Min(src.Length1, dst.Length1);
    for i := 0 to w
      invariant forall x, y :: 0 <= x < dst.Length0 && 0 <= y < dst.Length1 ==>
        dst[x, y] == if dx <= x < dx + i && y < h then src[x - dx, y] else old(dst[x, y])
    {
      for j := 0 to h
        invariant forall x, y :: 0 <= x < dst.Length0 && 0 <= y < dst.Length1 ==>
          dst[x, y] == if (dx <= x < dx + i && y < h) || (x == dx + i && y < j) then src[x - dx, y] else old(dst[x, y])
      {
        dst[dx + i, j] := src[i, j];
      }
    }
  }

  /** Column `x`, row `y` lies in one of the three panels of a composite of `a`, `b`, `d`. */
  ghost predicate Covered(a: array2<Rgba>, b: array2<Rgba>, d: array2<Rgba>, x: int, y: int)
  {
    || (0 <= x < a.Length0 && 0 <= y < a.Length1)
    || (a.Length0 <= x < a.Length0 + b.Length0 && 0 <= y < b.Length1)
    || (a.Length0 + b.Length0 <= x < a.Length0 + b.Length0 + d.Length0 && 0 <= y < d.Length1)
  }

  /** `c` shows `a`, `b` and `d` side by side, left to right, top-aligned: it
      is exactly as wide as the three together and as tall as the tallest,
      each source pixel sits unchanged at its panel's offset, and every pixel
      outside the three panels is zero. */
  ghost predicate IsComposite(c: array2<Rgba>, a: array2<Rgba>, b: array2<Rgba>, d: array2<Rgba>)
    reads c, a, b, d
  {
    && c.Length0 == a.Length0 + b.Length0 + d.Length0
    && c.Length1 == IntMax(IntMax(a.Length1, b.Length1), d.Length1)
    && (forall x, y :: 0 <= x < a.Length0 && 0 <= y < a.Length1 ==> c[x, y] == a[x, y])
    && (forall x, y :: 0 <= x < b.Length0 && 0 <= y < b.Length1 ==> c[a.Length0 + x, y] == b[x, y])
    && (forall x, y :: 0 <= x < d.Length0 && 0 <= y < d.Length1 ==> c[a.Length0 + b.Length0 + x, y] == d[x, y])
    && (forall x, y :: 0 <= x < c.Length0 && 0 <= y < c.Length1 && !Covered(a, b, d, x, y) ==> c[x, y] == Zero)
  }

  /** The pixel at column `x`, row `y` of the composite of `a`, `b`, `d`. */
  ghost function CompositeAt(a: array2<Rgba>, b: array2<Rgba>, d: array2<Rgba>, x: nat, y: nat): Rgba
    reads a, b, d
  {
    if x < a.Length0 then (if y < a.Length1 then a[x, y] else Zero)
    else if x < a.Length0 + b.Length0 then (if y < b.Length1 then b[x - a.Length0, y] else Zero)
    else if x < a.Length0 + b.Length0 + d.Length0 then (if y < d.Length1 then d[x - a.Length0 - b.Length0, y] else Zero)
    else Zero
  }

  /** A canvas of the composite's size whose every pixel is `CompositeAt` is a composite. */
  lemma CompositeFromPixels(c: array2<Rgba>, a: array2<Rgba>, b: array2<Rgba>, d: array2<Rgba>)
    requires c.Length0 == a.Length0 + b.Length0 + d.Length0
    requires c.Length1 == IntMax(IntMax(a.Length1, b.Length1), d.Length1)
    requires forall x, y :: 0 <= x < c.Length0 && 0 <= y < c.Length1 ==> c[x, y] == CompositeAt(a, b, d, x, y)
    ensures IsComposite(c, a, b, d)
  {
    forall x, y | 0 <= x < b.Length0 && 0 <= y < b.Length1
      ensures c[a.Length0 + x, y] == b[x, y]
    {
      assert c[a.Length0 + x, y] == CompositeAt(a, b, d, a.Length0 + x, y);
    }
    forall x, y | 0 <= x < d.Length0 && 0 <= y < d.Length1
      ensures c[a.Length0 + b.Length0 + x, y] == d[x, y]
    {
      assert c[a.Length0 + b.Length0 + x, y] == CompositeAt(a, b, d, a.Length0 + b.Length0 + x, y);
    }
  }

  /** Combines three images side by side onto a new canvas. */
  method CombineImages(img1: array2<Rgba>, img2: array2<Rgba>, img3: array2<Rgba>) returns (canvas: array2<Rgba>)
    ensures fresh(canvas)
    ensures IsComposite(canvas, img1, img2, img3)
  {
    var width := img1.Length0 + img2.Length0 + img3.Length0;
    var height := IntMax(IntMax(img1.Length1, img2.Length1), img3.Length1);
    var image2Offset := img1.Length0;
    var image3Offset := img1.Length0 + img2.Length0;
    canvas := new Rgba[width, height]((x, y) => Zero);
    Draw(canvas, img1, 0);
    Draw(canvas, img2, image2Offset);
    assert forall x, y :: 0 <= x < width && 0 <= y < height ==>
      canvas[x, y] == if x < image3Offset then CompositeAt(img1, img2, img3, x, y) else Zero;
    Draw(canvas, img3, image3Offset);
    CompositeFromPixels(canvas, img1, img2, img3);
  }

  /** A composite is fully determined by its three sources: any two canvases
      that both satisfy `IsComposite` for them agree on every pixel. */
  lemma CompositeUnique(c1: array2<Rgba>, c2: array2<Rgba>, a: array2<Rgba>, b: array2<Rgba>, d: array2<Rgba>)
    requires IsComposite(c1, a, b, d) && IsComposite(c2, a, b, d)
    ensures c1.Length0 == c2.Length0 && c1.Length1 == c2.Length1
    ensures forall x, y :: 0 <= x < c1.Length0 && 0 <= y < c1.Length1 ==> c1[x, y] == c2[x, y]
  {
    forall x, y | 0 <= x < c1.Length0 && 0 <= y < c1.Length1
      ensures c1[x, y] == c2[x, y]
    {
      if x < a.Length0 && y < a.Length1 {
        assert c1[x, y] == a[x, y];
      } else if a.Length0 <= x < a.Length0 + b.Length0 && y < b.Length1 {
        assert c1[a.Length0 + (x - a.Length0), y] == b[x - a.Length0, y];
        assert c2[a.Length0 + (x - a.Length0), y] == b[x - a.Length0, y];
      } else if a.Length0 + b.Length0 <= x && y < d.Length1 {
        var k := x - a.Length0 - b.Length0;
        assert c1[a.Length0 + b.Length0 + k, y] == d[k, y];
        assert c2[a.Length0 + b.Length0 + k, y] == d[k, y];
      } else {
        assert !Covered(a, b, d, x, y);
      }
    }
  }

  /** `c` is `src` padded (or clipped) onto a `w` by `h` canvas: every pixel
      keeps its own coordinates, nothing is scaled, and canvas pixels that
      `src` does not reach are zero. */
  ghost predicate IsPadded(c: array2<Rgba>, src: array2<Rgba>, w: nat, h: nat)
    reads c, src
  {
    && c.Length0 == w && c.Length1 == h
    && forall x, y :: 0 <= x < w && 0 <= y < h ==>
         c[x, y] == if x < src.Length0 && y < src.Length1 then src[x, y] else Zero
  }

  /** Draws `img` at the origin of a new `width` by `height` canvas. */
  method ResizeImage(img: array2<Rgba>, width: nat, height: nat) returns (canvas: array2<Rgba>)
    ensures fresh(canvas)
    ensures IsPadded(canvas, img, width, height)
  {
    canvas := new Rgba[width, height]((x, y) => Zero);
    Draw(canvas, img, 0);
  }

  /** Padding onto a canvas at least as large as the source never crops:
      every source pixel survives at its own coordinates. */
  lemma PaddingKeepsSource(c: array2<Rgba>, src: array2<Rgba>, w: nat, h: nat)
    requires IsPadded(c, src, w, h)
    requires src.Length0 <= w && src.Length1 <= h
    ensures forall x, y :: 0 <= x < src.Length0 && 0 <= y < src.Length1 ==> c[x, y] == src[x, y]
  {
  }
}
