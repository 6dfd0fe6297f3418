/**
 * The compositor's drawing surface: the `master` BufferedImage together with
 * its Graphics2D. Its pixels live in an array that drawImage and clearRect
 * update in place; each method is proved to leave the contents that the
 * Raster module's function of the old contents describes.
 */
module Graphics {
  import opened Raster

  class Canvas {
    /** pixels[x, y] is the pixel getRGB(x, y) reads. */
    const pixels: array2<Pixel>

    /**
     * The raster the canvas holds, as a value. Taking it is the deep copy
     * new BufferedImage(colorModel, copyData(null), ...) makes: later updates
     * to the array do not reach a value already taken.
     */
    function Contents(): (img: Image)
      reads pixels
      ensures img.Valid() && img.width == pixels.Length0 && img.height == pixels.Length1
      ensures forall x, y :: 0 <= x < pixels.Length0 && 0 <= y < pixels.Length1 ==>
        img.At(x, y) == pixels[x, y]
    {
      Image(pixels.Length0, pixels.Length1,
        seq(pixels.Length0, x requires 0 <= x < pixels.Length0 reads pixels =>
          seq(pixels.Length1, y requires 0 <= y < pixels.Length1 reads pixels => pixels[x, y])))
    }

    /** new BufferedImage(width, height, TYPE_INT_ARGB): a fully transparent surface; a size the JDK refuses is the caller's to rule out. */
    constructor (width: nat, height: nat)
      requires width > 0 && height > 0 && width * height < MaxRasterPixels
      ensures fresh(pixels)
      ensures Contents() == BlankImage(width, height)
    {
      pixels := new Pixel[width, height]((x, y) => Transparent);
      new;
      ImageExt(Contents(), BlankImage(width, height));
    }

    /** A new surface holding a deep copy of `from`. */
    constructor Copy(from: Image)
      requires from.Valid()
      ensures fresh(pixels)
      ensures Contents() == from
    {
      pixels := new Pixel[from.width, from.height](
        (x, y) requires 0 <= x < from.width && 0 <= y < from.height => from.At(x, y));
      new;
      ImageExt(Contents(), from);
    }

    /** drawImage(src, x, y, null) under the default source-over composite, clipped to the surface. */
    method DrawImage(src: Image, x: int, y: int)
      requires src.Valid()
      modifies pixels
      ensures Contents() == Draw(old(Contents()), src, x, y)
    {
      ghost var before := Contents();
      ghost var after := Draw(before, src, x, y);
      var lo := if x < 0 then 0 else x;
      var hi := if x + src.width < pixels.Length0 then x + src.width else pixels.Length0;
      if hi < lo {
        hi := lo;
      }
      var px := lo;
      while px < hi
        invariant lo <= px <= hi
        invariant forall i, j :: 0 <= i < pixels.Length0 && 0 <= j < pixels.Length1 ==>
          pixels[i, j] == if i < px then after.At(i, j) else before.At(i, j)
      {
        DrawColumn(src, x, y, px);
        px := px + 1;
      }
      ImageExt(Contents(), after);
    }

    /** One column of DrawImage: pixel column `px` of the surface, which lies under `src`. */
    method DrawColumn(src: Image, x: int, y: int, px: int)
      requires src.Valid() && 0 <= px < pixels.Length0 && x <= px < x + src.width
      modifies pixels
      ensures forall i, j :: 0 <= i < pixels.Length0 && 0 <= j < pixels.Length1 ==>
        pixels[i, j] == if i == px && y <= j < y + src.height
                        then Over(old(pixels[i, j]), src.At(i - x, j - y))
                        else old(pixels[i, j])
    {
      var lo := if y < 0 then 0 else y;
      var hi := if y + src.height < pixels.Length1 then y + src.height else pixels.Length1;
      if hi < lo {
        hi := lo;
      }
      var py := lo;
      while py < hi
        invariant lo <= py <= hi
        invariant forall i, j :: 0 <= i < pixels.Length0 && 0 <= j < pixels.Length1 ==>
          pixels[i, j] == if i == px && y <= j < py
                          then Over(old(pixels[i, j]), src.At(i - x, j - y))
                          else old(pixels[i, j])
      {
        var p := src.pixels[px - x][py - y];
        if p.a != 0 {
          pixels[px, py] := p;
        }
        py := py + 1;
      }
    }

    /** clearRect(x, y, w, h) with the (0, 0, 0, 0) background, clipped to the surface. */
    method ClearRect(x: int, y: int, w: int, h: int)
      modifies pixels
      ensures Contents() == Clear(old(Contents()), x, y, w, h)
    {
      ghost var before := Contents();
      ghost var after := Clear(before, x, y, w, h);
      var lo := if x < 0 then 0 else x;
      var hi := if x + w < pixels.Length0 then x + w else pixels.Length0;
      if hi < lo {
        hi := lo;
      }
      var px := lo;
      while px < hi
        invariant lo <= px <= hi
        invariant forall i, j :: 0 <= i < pixels.Length0 && 0 <= j < pixels.Length1 ==>
          pixels[i, j] == if i < px then after.At(i, j) else before.At(i, j)
      {
        ClearColumn(y, h, px);
        px := px + 1;
      }
      ImageExt(Contents(), after);
    }

    /** One column of ClearRect: rows y .. y + h - 1 of pixel column `px` become transparent. */
    method ClearColumn(y: int, h: int, px: int)
      requires 0 <= px < pixels.Length0
      modifies pixels
      ensures forall i, j :: 0 <= i < pixels.Length0 && 0 <= j < pixels.Length1 ==>
        pixels[i, j] == if i == px && y <= j < y + h then Transparent else old(pixels[i, j])
    {
      var lo := if y < 0 then 0 else y;
      var hi := if y + h < pixels.Length1 then y + h else pixels.Length1;
      if hi < lo {
        hi := lo;
      }
      var py := lo;
      while py < hi
        invariant lo <= py <= hi
        invariant forall i, j :: 0 <= i < pixels.Length0 && 0 <= j < pixels.Length1 ==>
          pixels[i, j] == if i == px && y <= j < py then Transparent else old(pixels[i, j])
      {
        pixels[px, py] := Transparent;
        py := py + 1;
      }
    }
  }
}
