/**
 The mosaic filter as a pure function of the original image: every output
 pixel takes the mean colour of the block that covers it, and that mean is
 computed from the original pixels only.
 */
module Mosaic {
  import opened Arith
  import opened Images
  import opened Tiling
  import opened Aggregation

  /** The block size `mosaic_filter` uses when none is given. */
  const DefaultBlockSize := 10

  /** The colour the filter writes at (x, y): the mean of the original block covering (x, y). */
  function MosaicPixel(img: Image, bs: int, x: int, y: int): Pixel
    requires img.WellFormed() && bs >= 1 && 0 <= x < img.width && 0 <= y < img.height
  {
    BlockMean(img, BlockOf(x, y, img.width, img.height, bs))
  }

  /** The image `mosaic_filter(img, bs)` returns. */
  function Apply(img: Image, bs: int): (out: Image)
    requires img.WellFormed() && bs >= 1
    ensures out.SameShape(img)
  {
    Image(img.width, img.height,
      seq(img.height, y requires 0 <= y < img.height =>
        seq(img.width, x requires 0 <= x < img.width => MosaicPixel(img, bs, x, y))))
  }

  /** Every pixel equals the pixel at the origin of its block. */
  predicate BlockUniform(img: Image, bs: int)
    requires img.WellFormed() && bs >= 1
  {
    forall y, x :: 0 <= y < img.height && 0 <= x < img.width ==>
      img.px[y][x] == img.px[BlockOf(x, y, img.width, img.height, bs).y0][BlockOf(x, y, img.width, img.height, bs).x0]
  }

  /**
   For every block the filter visits, each output pixel inside the block
   is that block's mean colour over the original image.
   */
  lemma ApplyFillsBlocks(img: Image, bs: int, b: Block)
    requires img.WellFormed() && bs >= 1
    requires b in Blocks(img.width, img.height, bs)
    ensures Within(b, img.width, img.height) && Area(b) >= 1
    ensures forall y, x :: Contains(b, x, y) ==> Apply(img, bs).px[y][x] == BlockMean(img, b)
  {
    BlocksNonEmpty(img.width, img.height, bs, b);
    forall y, x | Contains(b, x, y)
      ensures Apply(img, bs).px[y][x] == BlockMean(img, b)
    {
      BlocksTile(img.width, img.height, bs, x, y, b);
    }
  }

  /** A block that is already one colour keeps that colour. */
  lemma UniformBlockKept(img: Image, bs: int, b: Block, p: Pixel)
    requires img.WellFormed() && bs >= 1
    requires b in Blocks(img.width, img.height, bs)
    requires Within(b, img.width, img.height)
    requires forall y, x :: Contains(b, x, y) ==> img.px[y][x] == p
    ensures forall y, x :: Contains(b, x, y) ==> Apply(img, bs).px[y][x] == p
  {
    ApplyFillsBlocks(img, bs, b);
    BlockMeanOfUniform(img, b, p);
  }

  /** Filtering an 8-bit image yields an 8-bit image. */
  lemma ApplyValid(img: Image, bs: int)
    requires img.WellFormed() && bs >= 1 && img.ValidPixels()
    ensures Apply(img, bs).ValidPixels()
  {
    forall y, x | 0 <= y < img.height && 0 <= x < img.width
      ensures Apply(img, bs).px[y][x].Valid()
    {
      BlockMeanValid(img, BlockOf(x, y, img.width, img.height, bs));
    }
  }

  /** The output is uniform on every block. */
  lemma ApplyBlockUniform(img: Image, bs: int)
    requires img.WellFormed() && bs >= 1
    ensures BlockUniform(Apply(img, bs), bs)
  {
    var out := Apply(img, bs);
    forall y, x | 0 <= y < img.height && 0 <= x < img.width
      ensures out.px[y][x] == out.px[BlockOf(x, y, img.width, img.height, bs).y0][BlockOf(x, y, img.width, img.height, bs).x0]
    {
      var b := BlockOf(x, y, img.width, img.height, bs);
      SameBlock(x, y, b.x0, b.y0, img.width, img.height, bs);
    }
  }

  /** An image that is uniform on every block is its own mosaic. */
  lemma ApplyFixpoint(img: Image, bs: int)
    requires img.WellFormed() && bs >= 1
    requires BlockUniform(img, bs)
    ensures Apply(img, bs) == img
  {
    var out := Apply(img, bs);
    forall y | 0 <= y < img.height
      ensures out.px[y] == img.px[y]
    {
      forall x | 0 <= x < img.width
        ensures out.px[y][x] == img.px[y][x]
      {
        var b := BlockOf(x, y, img.width, img.height, bs);
        var p := img.px[b.y0][b.x0];
        forall y', x' | Contains(b, x', y')
          ensures img.px[y'][x'] == p
        {
          SameBlock(x, y, x', y', img.width, img.height, bs);
        }
        BlockMeanOfUniform(img, b, p);
      }
    }
  }

  /** A solid-colour image comes back unchanged. */
  lemma SolidImageUnchanged(img: Image, bs: int, p: Pixel)
    requires img.WellFormed() && bs >= 1
    requires forall y, x :: 0 <= y < img.height && 0 <= x < img.width ==> img.px[y][x] == p
    ensures Apply(img, bs) == img
  {
    ApplyFixpoint(img, bs);
  }

  /** Applying the filter twice with the same block size is the same as applying it once. */
  lemma ApplyIdempotent(img: Image, bs: int)
    requires img.WellFormed() && bs >= 1
    ensures Apply(Apply(img, bs), bs) == Apply(img, bs)
  {
    ApplyBlockUniform(img, bs);
    ApplyFixpoint(Apply(img, bs), bs);
  }

  /** A w x h image of one colour. */
  function Solid(w: nat, h: nat, p: Pixel): (img: Image)
    ensures img.WellFormed() && img.width == w && img.height == h
    ensures forall y, x :: 0 <= y < h && 0 <= x < w ==> img.px[y][x] == p
  {
    Image(w, h, seq(h, _ => seq(w, _ => p)))
  }

  /** A 20 x 20 image of colour (128, 64, 32) with block size 10 is returned unchanged. */
  lemma SolidExample()
    ensures Apply(Solid(20, 20, Pixel(128, 64, 32)), 10) == Solid(20, 20, Pixel(128, 64, 32))
  {
    SolidImageUnchanged(Solid(20, 20, Pixel(128, 64, 32)), 10, Pixel(128, 64, 32));
  }

  /**
   A 3 x 1 image with block size 2: the first block holds two pixels and
   its means are floored (11 // 2 == 5); the second block is cut to one pixel.
   */
  lemma EdgeBlockExample()
    ensures Apply(Image(3, 1, [[Pixel(0, 0, 0), Pixel(11, 21, 31), Pixel(7, 7, 7)]]), 2).px
            == [[Pixel(5, 10, 15), Pixel(5, 10, 15), Pixel(7, 7, 7)]]
  {
    var img := Image(3, 1, [[Pixel(0, 0, 0), Pixel(11, 21, 31), Pixel(7, 7, 7)]]);
    var out := Apply(img, 2);
    var left := Block(0, 0, 2, 1);
    var right := Block(2, 0, 3, 1);
    DivUnique(0, 2, 0);
    DivUnique(1, 2, 0);
    DivUnique(2, 2, 1);
    assert BlockOf(0, 0, 3, 1, 2) == left;
    assert BlockOf(1, 0, 3, 1, 2) == left;
    assert BlockOf(2, 0, 3, 1, 2) == right;
    assert BlockSum(img, left, Red) == 11;
    assert BlockSum(img, left, Green) == 21;
    assert BlockSum(img, left, Blue) == 31;
    assert BlockMean(img, left) == Pixel(5, 10, 15);
    assert BlockMean(img, right) == Pixel(7, 7, 7);
    assert out.px[0] == [Pixel(5, 10, 15), Pixel(5, 10, 15), Pixel(7, 7, 7)];
  }
}
