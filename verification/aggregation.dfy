/**
 Per-block aggregation of `mosaic_filter`: the channel sums over the
 pixels of a clipped block, the pixel count, and the floor mean of each
 channel. The sums are taken in the order the source's two inner loops
 visit the pixels (row by row, left to right).
 */
module Aggregation {
  import opened Arith
  import opened Images
  import opened Tiling

  /** Sum of channel `c` over row[x0..x1). */
  function RowSum(row: seq<Pixel>, x0: int, x1: int, c: Channel): int
    requires 0 <= x0 <= x1 <= |row|
    decreases x1 - x0
  {
    if x1 == x0 then 0 else RowSum(row, x0, x1 - 1, c) + row[x1 - 1].Get(c)
  }

  /** Sum of channel `c` over columns [x0, x1) of rows [y0, y1). */
  function BandSum(img: Image, x0: int, x1: int, y0: int, y1: int, c: Channel): int
    requires img.WellFormed()
    requires 0 <= x0 <= x1 <= img.width && 0 <= y0 <= y1 <= img.height
    decreases y1 - y0
  {
    if y1 == y0 then 0 else BandSum(img, x0, x1, y0, y1 - 1, c) + RowSum(img.px[y1 - 1], x0, x1, c)
  }

  function BlockSum(img: Image, b: Block, c: Channel): int
    requires img.WellFormed() && Within(b, img.width, img.height)
  {
    BandSum(img, b.x0, b.x1, b.y0, b.y1, c)
  }

  /** The mean colour of a block: each channel sum floor-divided by the pixel count. */
  function BlockMean(img: Image, b: Block): Pixel
    requires img.WellFormed() && Within(b, img.width, img.height) && Area(b) >= 1
  {
    var n := Area(b);
    Pixel(BlockSum(img, b, Red) / n, BlockSum(img, b, Green) / n, BlockSum(img, b, Blue) / n)
  }

  // ---------------------------------------------------------------------
  // Sums are bounded by the extreme channel values times the count
  // ---------------------------------------------------------------------

  lemma {:induction false} RowSumAtLeast(row: seq<Pixel>, x0: int, x1: int, c: Channel, lo: int)
    requires 0 <= x0 <= x1 <= |row|
    requires forall x :: x0 <= x < x1 ==> lo <= row[x].Get(c)
    ensures lo * (x1 - x0) <= RowSum(row, x0, x1, c)
    decreases x1 - x0
  {
    if x1 > x0 {
      RowSumAtLeast(row, x0, x1 - 1, c, lo);
      MulStep(x1 - 1 - x0, lo);
    }
  }

  lemma {:induction false} RowSumAtMost(row: seq<Pixel>, x0: int, x1: int, c: Channel, hi: int)
    requires 0 <= x0 <= x1 <= |row|
    requires forall x :: x0 <= x < x1 ==> row[x].Get(c) <= hi
    ensures RowSum(row, x0, x1, c) <= hi * (x1 - x0)
    decreases x1 - x0
  {
    if x1 > x0 {
      RowSumAtMost(row, x0, x1 - 1, c, hi);
      MulStep(x1 - 1 - x0, hi);
    }
  }

  lemma {:induction false} BandSumAtLeast(img: Image, x0: int, x1: int, y0: int, y1: int, c: Channel, lo: int)
    requires img.WellFormed()
    requires 0 <= x0 <= x1 <= img.width && 0 <= y0 <= y1 <= img.height
    requires forall y, x :: y0 <= y < y1 && x0 <= x < x1 ==> lo <= img.px[y][x].Get(c)
    ensures lo * ((x1 - x0) * (y1 - y0)) <= BandSum(img, x0, x1, y0, y1, c)
    decreases y1 - y0
  {
    if y1 > y0 {
      BandSumAtLeast(img, x0, x1, y0, y1 - 1, c, lo);
      RowSumAtLeast(img.px[y1 - 1], x0, x1, c, lo);
      MulGrow(lo, x1 - x0, y1 - 1 - y0);
    }
  }

  lemma {:induction false} BandSumAtMost(img: Image, x0: int, x1: int, y0: int, y1: int, c: Channel, hi: int)
    requires img.WellFormed()
    requires 0 <= x0 <= x1 <= img.width && 0 <= y0 <= y1 <= img.height
    requires forall y, x :: y0 <= y < y1 && x0 <= x < x1 ==> img.px[y][x].Get(c) <= hi
    ensures BandSum(img, x0, x1, y0, y1, c) <= hi * ((x1 - x0) * (y1 - y0))
    decreases y1 - y0
  {
    if y1 > y0 {
      BandSumAtMost(img, x0, x1, y0, y1 - 1, c, hi);
      RowSumAtMost(img.px[y1 - 1], x0, x1, c, hi);
      MulGrow(hi, x1 - x0, y1 - 1 - y0);
    }
  }

  // ---------------------------------------------------------------------
  // Properties of the floor mean
  // ---------------------------------------------------------------------

  /** If every pixel of the block has channel `c` in [lo, hi], so does the mean. */
  lemma BlockMeanBounded(img: Image, b: Block, c: Channel, lo: int, hi: int)
    requires img.WellFormed() && Within(b, img.width, img.height) && Area(b) >= 1
    requires forall y, x :: Contains(b, x, y) ==> lo <= img.px[y][x].Get(c) <= hi
    ensures lo <= BlockMean(img, b).Get(c) <= hi
  {
    var n := Area(b);
    var s := BlockSum(img, b, c);
    BandSumAtLeast(img, b.x0, b.x1, b.y0, b.y1, c, lo);
    BandSumAtMost(img, b.x0, b.x1, b.y0, b.y1, c, hi);
    assert BlockMean(img, b).Get(c) == s / n;
    DivBounds(s, n, lo, hi);
  }

  /**
   The floor mean of a channel lies between the smallest and the largest
   value of that channel inside the block: some pixel is at or below it
   and some pixel is at or above it.
   */
  lemma BlockMeanAttained(img: Image, b: Block, c: Channel)
    requires img.WellFormed() && Within(b, img.width, img.height) && Area(b) >= 1
    ensures exists y, x :: Contains(b, x, y) && img.px[y][x].Get(c) <= BlockMean(img, b).Get(c)
    ensures exists y, x :: Contains(b, x, y) && BlockMean(img, b).Get(c) <= img.px[y][x].Get(c)
  {
    var n := Area(b);
    var s := BlockSum(img, b, c);
    var m := s / n;
    assert BlockMean(img, b).Get(c) == m;
    DivBracket(s, n);
    if forall y, x :: Contains(b, x, y) ==> m + 1 <= img.px[y][x].Get(c) {
      BandSumAtLeast(img, b.x0, b.x1, b.y0, b.y1, c, m + 1);
      MulStep(m, n);
    }
    if forall y, x :: Contains(b, x, y) ==> img.px[y][x].Get(c) <= m - 1 {
      BandSumAtMost(img, b.x0, b.x1, b.y0, b.y1, c, m - 1);
      MulStep(m - 1, n);
    }
  }

  /** A block whose pixels all have colour `p` has mean colour `p`: (n * v) // n == v. */
  lemma BlockMeanOfUniform(img: Image, b: Block, p: Pixel)
    requires img.WellFormed() && Within(b, img.width, img.height) && Area(b) >= 1
    requires forall y, x :: Contains(b, x, y) ==> img.px[y][x] == p
    ensures BlockMean(img, b) == p
  {
    BlockMeanBounded(img, b, Red, p.r, p.r);
    BlockMeanBounded(img, b, Green, p.g, p.g);
    BlockMeanBounded(img, b, Blue, p.b, p.b);
  }

  /** The mean of 8-bit pixels is again an 8-bit pixel. */
  lemma BlockMeanValid(img: Image, b: Block)
    requires img.WellFormed() && Within(b, img.width, img.height) && Area(b) >= 1
    requires img.ValidPixels()
    ensures BlockMean(img, b).Valid()
  {
    BlockMeanBounded(img, b, Red, 0, 255);
    BlockMeanBounded(img, b, Green, 0, 255);
    BlockMeanBounded(img, b, Blue, 0, 255);
  }
}
