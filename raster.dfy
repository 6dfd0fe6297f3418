/**
 * Pixel values and rasters as the GIF compositor sees them: a TYPE_INT_ARGB
 * BufferedImage is a width x height grid of (R, G, B, A) pixels, addressed
 * [x][y] as getRGB(x, y) addresses it. The two drawing operations the
 * compositor uses on its canvas, Graphics2D.drawImage and Graphics2D.clearRect,
 * are given here as functions on values; the Graphics module's Canvas class
 * performs them in place and is proved against these functions.
 */
module Raster {

  /** One 8-bit colour or alpha channel. */
  type Channel = c: int | 0 <= c < 256

  datatype Pixel = Pixel(r: Channel, g: Channel, b: Channel, a: Channel)

  /**
   * Integer.MAX_VALUE: the JDK refuses to allocate an int-packed raster of
   * this many pixels or more (the pixel count no longer fits an int array).
   */
  const MaxRasterPixels: int := 0x7FFF_FFFF

  /** The background colour the canvas is cleared to: new Color(0, 0, 0, 0). */
  const Transparent: Pixel := Pixel(0, 0, 0, 0)

  /** A raster of `width` columns of `height` pixels each. */
  datatype Image = Image(width: nat, height: nat, pixels: seq<seq<Pixel>>) {

    predicate Valid() {
      |pixels| == width && forall x :: 0 <= x < width ==> |pixels[x]| == height
    }

    function At(x: int, y: int): Pixel
      requires Valid() && 0 <= x < width && 0 <= y < height
    {
      pixels[x][y]
    }
  }

  /** True when pixel (px, py) lies in the rectangle of size w x h placed at (x, y). */
  predicate InRect(x: int, y: int, w: int, h: int, px: int, py: int) {
    x <= px < x + w && y <= py < y + h
  }

  /** Two valid images of the same size that agree on every pixel are equal. */
  lemma ImageExt(p: Image, q: Image)
    requires p.Valid() && q.Valid() && p.width == q.width && p.height == q.height
    requires forall x, y :: 0 <= x < p.width && 0 <= y < p.height ==> p.At(x, y) == q.At(x, y)
    ensures p == q
  {
    forall x | 0 <= x < p.width
      ensures p.pixels[x] == q.pixels[x]
    {
      assert |p.pixels[x]| == |q.pixels[x]| == p.height;
      forall y | 0 <= y < p.height
        ensures p.pixels[x][y] == q.pixels[x][y]
      {
        assert p.At(x, y) == q.At(x, y);
      }
    }
  }

  /** A fully transparent raster: what new BufferedImage(w, h, TYPE_INT_ARGB) holds. */
  function BlankImage(w: nat, h: nat): (img: Image)
    ensures img.Valid() && img.width == w && img.height == h
  {
    Image(w, h, seq(w, _ => seq(h, _ => Transparent)))
  }

  /**
   * Source-over composition of one GIF pixel onto one canvas pixel. GIF pixels
   * are either fully transparent (alpha 0) or fully opaque (alpha 255): a
   * transparent one leaves the canvas pixel as it was, any other replaces it.
   */
  function Over(dst: Pixel, src: Pixel): Pixel {
    if src.a == 0 then dst else src
  }

  /**
   * drawImage(src, x, y): the canvas with `src` composited at offset (x, y),
   * clipped to the canvas; the size of the canvas never changes.
   */
  function Draw(canvas: Image, src: Image, x: int, y: int): (r: Image)
    requires canvas.Valid() && src.Valid()
    ensures r.Valid() && r.width == canvas.width && r.height == canvas.height
  {
    Image(canvas.width, canvas.height,
      seq(canvas.width, px requires 0 <= px < canvas.width =>
        seq(canvas.height, py requires 0 <= py < canvas.height =>
          if InRect(x, y, src.width, src.height, px, py)
          then Over(canvas.pixels[px][py], src.pixels[px - x][py - y])
          else canvas.pixels[px][py])))
  }

  /**
   * clearRect(x, y, w, h) with a (0, 0, 0, 0) background: the rectangle,
   * clipped to the canvas, becomes transparent and nothing else changes.
   */
  function Clear(canvas: Image, x: int, y: int, w: int, h: int): (r: Image)
    requires canvas.Valid()
    ensures r.Valid() && r.width == canvas.width && r.height == canvas.height
  {
    Image(canvas.width, canvas.height,
      seq(canvas.width, px requires 0 <= px < canvas.width =>
        seq(canvas.height, py requires 0 <= py < canvas.height =>
          if InRect(x, y, w, h, px, py) then Transparent else canvas.pixels[px][py])))
  }

  /** Every pixel of a blank raster is transparent. */
  lemma BlankPixel(w: nat, h: nat, px: int, py: int)
    requires 0 <= px < w && 0 <= py < h
    ensures BlankImage(w, h).At(px, py) == Transparent
  {
  }

  /**
   * Pixel (px, py) after drawImage: inside the placed rectangle of `src` it is
   * the source-over of the source pixel on the canvas pixel, outside it the
   * canvas pixel is unchanged.
   */
  lemma DrawPixel(canvas: Image, src: Image, x: int, y: int, px: int, py: int)
    requires canvas.Valid() && src.Valid() && 0 <= px < canvas.width && 0 <= py < canvas.height
    ensures Draw(canvas, src, x, y).At(px, py)
      == if InRect(x, y, src.width, src.height, px, py)
         then Over(canvas.At(px, py), src.At(px - x, py - y))
         else canvas.At(px, py)
  {
  }

  /** Pixel (px, py) after clearRect: transparent inside the rectangle, unchanged outside it. */
  lemma ClearPixel(canvas: Image, x: int, y: int, w: int, h: int, px: int, py: int)
    requires canvas.Valid() && 0 <= px < canvas.width && 0 <= py < canvas.height
    ensures Clear(canvas, x, y, w, h).At(px, py) == if InRect(x, y, w, h, px, py) then Transparent else canvas.At(px, py)
  {
  }

  /** Drawing an image that is opaque everywhere over the whole canvas at (0, 0) yields that image. */
  lemma DrawOpaqueCover(canvas: Image, src: Image)
    requires canvas.Valid() && src.Valid()
    requires src.width == canvas.width && src.height == canvas.height
    requires forall x, y :: 0 <= x < src.width && 0 <= y < src.height ==> src.At(x, y).a != 0
    ensures Draw(canvas, src, 0, 0) == src
  {
    ImageExt(Draw(canvas, src, 0, 0), src);
  }
}
