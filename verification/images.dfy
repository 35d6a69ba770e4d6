/**
 The data model of the filter: an RGB pixel and a rectangular image.

 The image is stored row-major, `px[y][x]`, so the pixel the source reads
 as `pixels[bx, by]` is `px[by][bx]` here. Channel values are unbounded
 integers; `ValidPixels` states the 0..255 range of an 8-bit RGB image.
 */
module Images {

  datatype Channel = Red | Green | Blue

  datatype Pixel = Pixel(r: int, g: int, b: int)
  {
    function Get(c: Channel): int
    {
      match c
      case Red => r
      case Green => g
      case Blue => b
    }

    predicate Valid()
    {
      0 <= r <= 255 && 0 <= g <= 255 && 0 <= b <= 255
    }
  }

  /** A width x height image; either dimension may be zero. */
  datatype Image = Image(width: nat, height: nat, px: seq<seq<Pixel>>)
  {
    predicate WellFormed()
    {
      |px| == height && forall y :: 0 <= y < |px| ==> |px[y]| == width
    }

    predicate ValidPixels()
      requires WellFormed()
    {
      forall y, x :: 0 <= y < height && 0 <= x < width ==> px[y][x].Valid()
    }

    predicate SameShape(other: Image)
    {
      WellFormed() && other.WellFormed() && width == other.width && height == other.height
    }
  }
}
