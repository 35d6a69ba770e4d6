/**
 `mosaic_filter` as the source writes it: an outer pair of loops over the
 block origins and, per block, one pair of loops that accumulates the
 channel sums and the count and one pair that writes the mean colour into
 a copy of the image. The original image is only read.
 */
module Loops {
  import opened Arith
  import opened Images
  import opened Tiling
  import opened Aggregation
  import opened Mosaic

  /** `range(0, n, 0)` raises ValueError: a block size of zero is rejected. */
  datatype Error = ZeroBlockSize

  datatype Result<T> = Ok(value: T) | Err(error: Error)

  /** The channel sums and pixel count of one block, accumulated pixel by pixel. */
  method BlockTotals(img: Image, b: Block) returns (sumR: int, sumG: int, sumB: int, count: int)
    requires img.WellFormed() && Within(b, img.width, img.height)
    ensures sumR == BlockSum(img, b, Red)
    ensures sumG == BlockSum(img, b, Green)
    ensures sumB == BlockSum(img, b, Blue)
    ensures count == Area(b)
  {
    sumR, sumG, sumB, count := 0, 0, 0, 0;
    var cy := b.y0;
    while cy < b.y1
      invariant b.y0 <= cy <= b.y1
      invariant sumR == BandSum(img, b.x0, b.x1, b.y0, cy, Red)
      invariant sumG == BandSum(img, b.x0, b.x1, b.y0, cy, Green)
      invariant sumB == BandSum(img, b.x0, b.x1, b.y0, cy, Blue)
      invariant count == (cy - b.y0) * (b.x1 - b.x0)
    {
      var cx := b.x0;
      while cx < b.x1
        invariant b.x0 <= cx <= b.x1
        invariant sumR == BandSum(img, b.x0, b.x1, b.y0, cy, Red) + RowSum(img.px[cy], b.x0, cx, Red)
        invariant sumG == BandSum(img, b.x0, b.x1, b.y0, cy, Green) + RowSum(img.px[cy], b.x0, cx, Green)
        invariant sumB == BandSum(img, b.x0, b.x1, b.y0, cy, Blue) + RowSum(img.px[cy], b.x0, cx, Blue)
        invariant count == (cy - b.y0) * (b.x1 - b.x0) + (cx - b.x0)
      {
        var p := img.px[cy][cx];
        sumR := sumR + p.r;
        sumG := sumG + p.g;
        sumB := sumB + p.b;
        count := count + 1;
        cx := cx + 1;
      }
      MulStep(cy - b.y0, b.x1 - b.x0);
      cy := cy + 1;
    }
  }

  /** Writes `colour` to every pixel of block `b` and leaves every other pixel as it was. */
  method FillBlock(img: Image, b: Block, colour: Pixel) returns (out: Image)
    requires img.WellFormed() && Within(b, img.width, img.height)
    ensures out.SameShape(img)
    ensures forall y, x :: 0 <= y < img.height && 0 <= x < img.width ==>
              out.px[y][x] == if Contains(b, x, y) then colour else img.px[y][x]
  {
    out := img;
    var cy := b.y0;
    while cy < b.y1
      invariant b.y0 <= cy <= b.y1
      invariant out.SameShape(img)
      invariant forall y, x :: 0 <= y < img.height && 0 <= x < img.width ==>
                  out.px[y][x] == if b.y0 <= y < cy && b.x0 <= x < b.x1 then colour else img.px[y][x]
    {
      var cx := b.x0;
      while cx < b.x1
        invariant b.x0 <= cx <= b.x1
        invariant out.SameShape(img)
        invariant forall y, x :: 0 <= y < img.height && 0 <= x < img.width ==>
                    out.px[y][x] == if (b.y0 <= y < cy && b.x0 <= x < b.x1) || (y == cy && b.x0 <= x < cx) then colour else img.px[y][x]
      {
        out := out.(px := out.px[cy := out.px[cy][cx := colour]]);
        cx := cx + 1;
      }
      cy := cy + 1;
    }
  }

  /**
   One iteration of the two outer loops: sums the original pixels of the
   visited block `b`, floor-divides by the count and writes the mean into
   `out`. Inside `b` the result agrees with the mosaic, elsewhere `out` is kept.
   */
  method MosaicBlock(img: Image, out: Image, bs: int, b: Block) returns (out': Image)
    requires img.WellFormed() && bs >= 1 && out.SameShape(img)
    requires b in Blocks(img.width, img.height, bs)
    ensures out'.SameShape(img)
    ensures forall y, x :: 0 <= y < img.height && 0 <= x < img.width ==>
              out'.px[y][x] == if Contains(b, x, y) then Apply(img, bs).px[y][x] else out.px[y][x]
  {
    ApplyFillsBlocks(img, bs, b);
    var sumR, sumG, sumB, count := BlockTotals(img, b);
    var mean := Pixel(sumR / count, sumG / count, sumB / count);
    out' := FillBlock(out, b, mean);
  }

  /**
   The nested loops of the filter, for a positive block size. `visited`
   records the blocks in the order the two outer loops reach them.
   */
  method MosaicLoops(img: Image, bs: int) returns (out: Image, ghost visited: seq<Block>)
    requires img.WellFormed() && bs >= 1
    ensures out == Apply(img, bs)
    ensures visited == Blocks(img.width, img.height, bs)
  {
    var w, h := img.width, img.height;
    ghost var target := Apply(img, bs);
    ghost var xs := Range(0, w, bs);
    out := img;
    visited := [];
    var y := 0;
    while y < h
      invariant 0 <= y < h + bs && y % bs == 0
      invariant out.SameShape(img)
      invariant forall yy, xx :: 0 <= yy < h && 0 <= xx < w ==>
                  out.px[yy][xx] == if yy < y then target.px[yy][xx] else img.px[yy][xx]
      invariant visited == GridBlocks(Range(0, y, bs), xs, w, h, bs)
    {
      var x := 0;
      while x < w
        invariant 0 <= x < w + bs && x % bs == 0
        invariant out.SameShape(img)
        invariant forall yy, xx :: 0 <= yy < h && 0 <= xx < w ==>
                    out.px[yy][xx] == if yy < y || (yy < y + bs && xx < x) then target.px[yy][xx] else img.px[yy][xx]
        invariant visited == GridBlocks(Range(0, y, bs), xs, w, h, bs) + RowBlocks(y, Range(0, x, bs), w, h, bs)
      {
        var blk := MakeBlock(x, y, w, h, bs);
        BlockOrigins(w, h, bs, blk);
        out := MosaicBlock(img, out, bs, blk);
        RangeExtend(0, x, bs);
        RowBlocksAppend(y, Range(0, x, bs), x, w, h, bs);
        visited := visited + [blk];
        DivAddStep(x, bs);
        x := x + bs;
      }
      RangeStopRound(0, w, x, bs);
      RangeExtend(0, y, bs);
      GridBlocksAppend(Range(0, y, bs), y, xs, w, h, bs);
      DivAddStep(y, bs);
      y := y + bs;
    }
    RangeStopRound(0, h, y, bs);
    forall yy | 0 <= yy < h
      ensures out.px[yy] == target.px[yy]
    {
    }
  }

  /**
   `mosaic_filter(img, block_size)`: a zero block size makes `range` raise,
   a negative one makes the outer `range` empty so the copy comes back
   unchanged, and a positive one yields the mosaic. The block size
   defaults to `DefaultBlockSize` when the caller omits it.
   */
  method MosaicFilter(img: Image, blockSize: int := DefaultBlockSize) returns (r: Result<Image>)
    requires img.WellFormed()
    ensures r.Err? <==> blockSize == 0
    ensures blockSize > 0 ==> r == Ok(Apply(img, blockSize))
    ensures blockSize < 0 ==> r == Ok(img)
  {
    if blockSize == 0 {
      return Err(ZeroBlockSize);
    }
    if blockSize < 0 {
      return Ok(img);
    }
    var out, _ := MosaicLoops(img, blockSize);
    return Ok(out);
  }

  /** Called without a block size, the filter uses blocks of 10 x 10 pixels. */
  method MosaicFilterDefault(img: Image) returns (r: Result<Image>)
    requires img.WellFormed()
    ensures r == Ok(Apply(img, 10))
  {
    r := MosaicFilter(img);
  }
}
