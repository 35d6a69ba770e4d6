/**
 The block partition of `mosaic_filter`: block origins are produced by
 `range(0, height, bs)` (outer) and `range(0, width, bs)` (inner), and each
 block is clipped at the right and bottom edges with `min`.

 The main facts proved here are that the origins are exactly the multiples
 of `bs` inside the image, that the blocks come in strict row-major order,
 that every pixel lies in exactly one block (the one `BlockOf` names), and
 that the block areas add up to `width * height`.
 */
module Tiling {
  import opened Arith

  /** The half-open rectangle [x0, x1) x [y0, y1). */
  datatype Block = Block(x0: int, y0: int, x1: int, y1: int)

  function Area(b: Block): int
  {
    (b.x1 - b.x0) * (b.y1 - b.y0)
  }

  predicate Contains(b: Block, x: int, y: int)
  {
    b.x0 <= x < b.x1 && b.y0 <= y < b.y1
  }

  predicate Within(b: Block, w: int, h: int)
  {
    0 <= b.x0 <= b.x1 <= w && 0 <= b.y0 <= b.y1 <= h
  }

  /** Strict row-major order of block origins: y first, then x. */
  predicate Before(a: Block, b: Block)
  {
    a.y0 < b.y0 || (a.y0 == b.y0 && a.x0 < b.x0)
  }

  predicate RowMajor(bl: seq<Block>)
  {
    forall i, j :: 0 <= i < j < |bl| ==> Before(bl[i], bl[j])
  }

  /** Python's `range(start, stop, step)` for a positive step. */
  function Range(start: int, stop: int, step: int): seq<int>
    requires step >= 1
    decreases stop - start
  {
    if start >= stop then [] else [start] + Range(start + step, stop, step)
  }

  /** The block whose origin is (x, y), cut short at the image edges. */
  function MakeBlock(x: int, y: int, w: int, h: int, bs: int): Block
  {
    Block(x, y, Min(x + bs, w), Min(y + bs, h))
  }

  /** The blocks of one band of rows, in the order of the inner loop. */
  function RowBlocks(y: int, xs: seq<int>, w: int, h: int, bs: int): seq<Block>
  {
    if |xs| == 0 then [] else [MakeBlock(xs[0], y, w, h, bs)] + RowBlocks(y, xs[1..], w, h, bs)
  }

  /** The blocks of all bands, in the order of the outer loop. */
  function GridBlocks(ys: seq<int>, xs: seq<int>, w: int, h: int, bs: int): seq<Block>
  {
    if |ys| == 0 then [] else RowBlocks(ys[0], xs, w, h, bs) + GridBlocks(ys[1..], xs, w, h, bs)
  }

  /** The blocks `mosaic_filter` visits, in visiting order. */
  function Blocks(w: nat, h: nat, bs: int): seq<Block>
    requires bs >= 1
  {
    GridBlocks(Range(0, h, bs), Range(0, w, bs), w, h, bs)
  }

  /** `v` rounded down to a multiple of `bs`: (v // bs) * bs. */
  function AlignDown(v: int, bs: int): (r: int)
    requires bs >= 1
    ensures r % bs == 0
    ensures r <= v < r + bs
    ensures v >= 0 ==> r >= 0
  {
    DivBracket(v, bs);
    MultipleMod(v / bs, bs);
    (v / bs) * bs
  }

  /** The block that covers pixel (x, y): its origin rounds each coordinate down to a multiple of `bs`. */
  function BlockOf(x: int, y: int, w: int, h: int, bs: int): (b: Block)
    requires bs >= 1 && 0 <= x < w && 0 <= y < h
    ensures Contains(b, x, y) && Within(b, w, h)
    ensures b.x0 % bs == 0 && b.y0 % bs == 0
    ensures b == MakeBlock(b.x0, b.y0, w, h, bs)
    ensures Area(b) >= 1
  {
    var x0 := AlignDown(x, bs);
    var y0 := AlignDown(y, bs);
    MulPositive(Min(x0 + bs, w) - x0, Min(y0 + bs, h) - y0);
    MakeBlock(x0, y0, w, h, bs)
  }

  function TotalArea(bl: seq<Block>): int
  {
    if |bl| == 0 then 0 else Area(bl[0]) + TotalArea(bl[1..])
  }

  /** Sum of the clipped extents min(v + bs, stop) - v of the origins `vs`. */
  function Extents(vs: seq<int>, stop: int, bs: int): int
  {
    if |vs| == 0 then 0 else (Min(vs[0] + bs, stop) - vs[0]) + Extents(vs[1..], stop, bs)
  }

  // ---------------------------------------------------------------------
  // The origins produced by `range`
  // ---------------------------------------------------------------------

  /** `range(start, stop, step)` holds exactly the values start + k*step below stop. */
  lemma {:induction false} RangeMembership(start: int, stop: int, step: int, v: int)
    requires step >= 1
    ensures v in Range(start, stop, step) <==> start <= v < stop && (v - start) % step == 0
    decreases stop - start
  {
    if start < stop {
      var rest := Range(start + step, stop, step);
      assert Range(start, stop, step) == [start] + rest;
      RangeMembership(start + step, stop, step, v);
      DivAddStep(v - start - step, step);
      if start < v < start + step {
        DivUnique(v - start, step, 0);
      }
    }
  }

  lemma {:induction false} RangeLowerBound(start: int, stop: int, step: int)
    requires step >= 1
    ensures forall i :: 0 <= i < |Range(start, stop, step)| ==> start <= Range(start, stop, step)[i] < stop
    decreases stop - start
  {
    if start < stop {
      RangeLowerBound(start + step, stop, step);
    }
  }

  /** `range` with a positive step is strictly increasing. */
  lemma {:induction false} RangeIncreasing(start: int, stop: int, step: int)
    requires step >= 1
    ensures forall i, j :: 0 <= i < j < |Range(start, stop, step)| ==> Range(start, stop, step)[i] < Range(start, stop, step)[j]
    decreases stop - start
  {
    if start < stop {
      var r := Range(start, stop, step);
      RangeIncreasing(start + step, stop, step);
      RangeLowerBound(start + step, stop, step);
      forall i, j | 0 <= i < j < |r|
        ensures r[i] < r[j]
      {
        if i > 0 {
          assert r[i] == Range(start + step, stop, step)[i - 1];
        }
        assert r[j] == Range(start + step, stop, step)[j - 1];
      }
    }
  }

  /** `range(start, stop, step)` has ceil((stop - start) / step) elements. */
  lemma {:induction false} RangeLength(start: int, stop: int, step: int)
    requires step >= 1
    ensures |Range(start, stop, step)| == if start < stop then Ceil(stop - start, step) else 0
    decreases stop - start
  {
    if start < stop {
      RangeLength(start + step, stop, step);
      if start + step < stop {
        DivAddStep(stop - start - 1, step);
      } else {
        DivUnique(stop - start + step - 1, step, 1);
      }
    }
  }

  /** One more step of `range` appends its old stop, when that stop is on the grid. */
  lemma {:induction false} RangeExtend(start: int, y: int, step: int)
    requires step >= 1 && start <= y && (y - start) % step == 0
    ensures Range(start, y + step, step) == Range(start, y, step) + [y]
    decreases y - start
  {
    if start < y {
      DivAddStep(y - start - step, step);
      if y - start < step {
        DivUnique(y - start, step, 0);
      }
      RangeExtend(start + step, y, step);
    }
  }

  /** Any stop in (y - step, y] gives the same `range` as y, when y is on the grid. */
  lemma {:induction false} RangeStopRound(start: int, stop: int, y: int, step: int)
    requires step >= 1 && start <= y && (y - start) % step == 0
    requires y - step < stop <= y
    ensures Range(start, stop, step) == Range(start, y, step)
    decreases y - start
  {
    if start < y {
      DivAddStep(y - start - step, step);
      if y - start < step {
        DivUnique(y - start, step, 0);
      }
      RangeStopRound(start + step, stop, y, step);
    }
  }

  lemma {:induction false} RowBlocksAppend(y: int, xs: seq<int>, x: int, w: int, h: int, bs: int)
    ensures RowBlocks(y, xs + [x], w, h, bs) == RowBlocks(y, xs, w, h, bs) + [MakeBlock(x, y, w, h, bs)]
  {
    if |xs| > 0 {
      assert (xs + [x])[1..] == xs[1..] + [x];
      RowBlocksAppend(y, xs[1..], x, w, h, bs);
    } else {
      assert xs + [x] == [x];
    }
  }

  lemma {:induction false} GridBlocksAppend(ys: seq<int>, y: int, xs: seq<int>, w: int, h: int, bs: int)
    ensures GridBlocks(ys + [y], xs, w, h, bs) == GridBlocks(ys, xs, w, h, bs) + RowBlocks(y, xs, w, h, bs)
  {
    if |ys| > 0 {
      assert (ys + [y])[1..] == ys[1..] + [y];
      GridBlocksAppend(ys[1..], y, xs, w, h, bs);
    } else {
      assert ys + [y] == [y];
    }
  }

  // ---------------------------------------------------------------------
  // Membership and order of the block sequence
  // ---------------------------------------------------------------------

  lemma {:induction false} RowBlocksMembership(y: int, xs: seq<int>, w: int, h: int, bs: int, b: Block)
    ensures b in RowBlocks(y, xs, w, h, bs) <==> b.y0 == y && b.x0 in xs && b == MakeBlock(b.x0, y, w, h, bs)
  {
    if |xs| > 0 {
      RowBlocksMembership(y, xs[1..], w, h, bs, b);
      assert xs == [xs[0]] + xs[1..];
    }
  }

  lemma {:induction false} GridBlocksMembership(ys: seq<int>, xs: seq<int>, w: int, h: int, bs: int, b: Block)
    ensures b in GridBlocks(ys, xs, w, h, bs) <==> b.y0 in ys && b.x0 in xs && b == MakeBlock(b.x0, b.y0, w, h, bs)
  {
    if |ys| > 0 {
      RowBlocksMembership(ys[0], xs, w, h, bs, b);
      GridBlocksMembership(ys[1..], xs, w, h, bs, b);
      assert ys == [ys[0]] + ys[1..];
    }
  }

  /**
   The blocks visited are exactly the clipped blocks whose origins are
   multiples of `bs` inside the image.
   */
  lemma BlockOrigins(w: nat, h: nat, bs: int, b: Block)
    requires bs >= 1
    ensures b in Blocks(w, h, bs) <==>
              && 0 <= b.x0 < w && b.x0 % bs == 0
              && 0 <= b.y0 < h && b.y0 % bs == 0
              && b == MakeBlock(b.x0, b.y0, w, h, bs)
  {
    GridBlocksMembership(Range(0, h, bs), Range(0, w, bs), w, h, bs, b);
    RangeMembership(0, w, bs, b.x0);
    RangeMembership(0, h, bs, b.y0);
  }

  lemma {:induction false} RowBlocksOrdered(y: int, xs: seq<int>, w: int, h: int, bs: int)
    requires forall i, j :: 0 <= i < j < |xs| ==> xs[i] < xs[j]
    ensures |RowBlocks(y, xs, w, h, bs)| == |xs|
    ensures RowMajor(RowBlocks(y, xs, w, h, bs))
    ensures forall i :: 0 <= i < |RowBlocks(y, xs, w, h, bs)| ==>
              RowBlocks(y, xs, w, h, bs)[i].y0 == y && RowBlocks(y, xs, w, h, bs)[i].x0 == xs[i]
  {
    if |xs| > 0 {
      RowBlocksOrdered(y, xs[1..], w, h, bs);
    }
  }

  lemma ConcatRowMajor(a: seq<Block>, b: seq<Block>)
    requires RowMajor(a) && RowMajor(b)
    requires forall i, j :: 0 <= i < |a| && 0 <= j < |b| ==> Before(a[i], b[j])
    ensures RowMajor(a + b)
  {
    var c := a + b;
    forall i, j | 0 <= i < j < |c|
      ensures Before(c[i], c[j])
    {
      if j < |a| {
        assert c[i] == a[i] && c[j] == a[j];
      } else if i >= |a| {
        assert c[i] == b[i - |a|] && c[j] == b[j - |a|];
      } else {
        assert c[i] == a[i] && c[j] == b[j - |a|];
      }
    }
  }

  lemma {:induction false} GridBlocksLength(ys: seq<int>, xs: seq<int>, w: int, h: int, bs: int)
    ensures |GridBlocks(ys, xs, w, h, bs)| == |ys| * |xs|
  {
    if |ys| > 0 {
      GridBlocksLength(ys[1..], xs, w, h, bs);
      RowBlocksLength(ys[0], xs, w, h, bs);
      assert |ys| * |xs| == |xs| + (|ys| - 1) * |xs|;
    }
  }

  lemma {:induction false} RowBlocksLength(y: int, xs: seq<int>, w: int, h: int, bs: int)
    ensures |RowBlocks(y, xs, w, h, bs)| == |xs|
  {
    if |xs| > 0 {
      RowBlocksLength(y, xs[1..], w, h, bs);
    }
  }

  lemma {:induction false} GridBlocksOrdered(ys: seq<int>, xs: seq<int>, w: int, h: int, bs: int)
    requires forall i, j :: 0 <= i < j < |ys| ==> ys[i] < ys[j]
    requires forall i, j :: 0 <= i < j < |xs| ==> xs[i] < xs[j]
    ensures RowMajor(GridBlocks(ys, xs, w, h, bs))
  {
    if |ys| > 0 {
      var row := RowBlocks(ys[0], xs, w, h, bs);
      var rest := GridBlocks(ys[1..], xs, w, h, bs);
      RowBlocksOrdered(ys[0], xs, w, h, bs);
      GridBlocksOrdered(ys[1..], xs, w, h, bs);
      forall i, j | 0 <= i < |row| && 0 <= j < |rest|
        ensures Before(row[i], rest[j])
      {
        GridBlocksMembership(ys[1..], xs, w, h, bs, rest[j]);
        var k :| 0 <= k < |ys[1..]| && ys[1..][k] == rest[j].y0;
        assert ys[0] < ys[k + 1];
      }
      ConcatRowMajor(row, rest);
    }
  }

  /** The blocks are visited in strict row-major order (so none is visited twice). */
  lemma BlocksRowMajor(w: nat, h: nat, bs: int)
    requires bs >= 1
    ensures RowMajor(Blocks(w, h, bs))
  {
    RangeIncreasing(0, h, bs);
    RangeIncreasing(0, w, bs);
    GridBlocksOrdered(Range(0, h, bs), Range(0, w, bs), w, h, bs);
  }

  /** ceil(height / bs) bands of ceil(width / bs) blocks each. */
  lemma BlocksCount(w: nat, h: nat, bs: int)
    requires bs >= 1
    ensures |Blocks(w, h, bs)| == (if h > 0 then Ceil(h, bs) else 0) * (if w > 0 then Ceil(w, bs) else 0)
  {
    GridBlocksLength(Range(0, h, bs), Range(0, w, bs), w, h, bs);
    RangeLength(0, h, bs);
    RangeLength(0, w, bs);
  }

  // ---------------------------------------------------------------------
  // Tiling: every pixel in exactly one block, no empty block
  // ---------------------------------------------------------------------

  /** Every block visited lies inside the image and covers at least one pixel, so its count is positive. */
  lemma BlocksNonEmpty(w: nat, h: nat, bs: int, b: Block)
    requires bs >= 1
    requires b in Blocks(w, h, bs)
    ensures Within(b, w, h)
    ensures b.x0 < b.x1 <= b.x0 + bs && b.y0 < b.y1 <= b.y0 + bs
    ensures Area(b) >= 1
  {
    BlockOrigins(w, h, bs, b);
    MulPositive(b.x1 - b.x0, b.y1 - b.y0);
  }

  /** Two pixels of the same block are assigned that same block. */
  lemma SameBlock(x: int, y: int, x': int, y': int, w: int, h: int, bs: int)
    requires bs >= 1 && 0 <= x < w && 0 <= y < h
    requires Contains(BlockOf(x, y, w, h, bs), x', y')
    ensures 0 <= x' < w && 0 <= y' < h
    ensures BlockOf(x', y', w, h, bs) == BlockOf(x, y, w, h, bs)
  {
    var b := BlockOf(x, y, w, h, bs);
    MulStep(x / bs, bs);
    MulStep(y / bs, bs);
    DivUnique(x', bs, x / bs);
    DivUnique(y', bs, y / bs);
  }

  /** A block whose origin is a multiple of `bs` is the block of each of its pixels. */
  lemma AlignedBlock(x0: int, y0: int, w: int, h: int, bs: int, x: int, y: int)
    requires bs >= 1 && 0 <= x0 && 0 <= y0 && x0 % bs == 0 && y0 % bs == 0
    requires Contains(MakeBlock(x0, y0, w, h, bs), x, y)
    ensures 0 <= x < w && 0 <= y < h
    ensures BlockOf(x, y, w, h, bs) == MakeBlock(x0, y0, w, h, bs)
  {
    DivUnique(x0, bs, x0 / bs);
    DivUnique(y0, bs, y0 / bs);
    SameBlock(x0, y0, x, y, w, h, bs);
  }

  /**
   The blocks tile the image: the block `BlockOf` names is visited, and a
   visited block contains pixel (x, y) if and only if it is that block.
   */
  lemma BlocksTile(w: nat, h: nat, bs: int, x: int, y: int, b: Block)
    requires bs >= 1 && 0 <= x < w && 0 <= y < h
    ensures BlockOf(x, y, w, h, bs) in Blocks(w, h, bs)
    ensures b in Blocks(w, h, bs) ==> (Contains(b, x, y) <==> b == BlockOf(x, y, w, h, bs))
  {
    var c := BlockOf(x, y, w, h, bs);
    BlockOrigins(w, h, bs, c);
    BlockOrigins(w, h, bs, b);
    if b in Blocks(w, h, bs) && Contains(b, x, y) {
      AlignedBlock(b.x0, b.y0, w, h, bs, x, y);
    }
  }

  /** Each pixel lies in exactly one position of the visiting sequence. */
  lemma PixelInExactlyOneBlock(w: nat, h: nat, bs: int, x: int, y: int)
    requires bs >= 1 && 0 <= x < w && 0 <= y < h
    ensures exists i :: 0 <= i < |Blocks(w, h, bs)| && Contains(Blocks(w, h, bs)[i], x, y)
    ensures forall i, j ::
              (0 <= i < |Blocks(w, h, bs)| && 0 <= j < |Blocks(w, h, bs)| &&
               Contains(Blocks(w, h, bs)[i], x, y) && Contains(Blocks(w, h, bs)[j], x, y)) ==> i == j
  {
    var bl := Blocks(w, h, bs);
    var c := BlockOf(x, y, w, h, bs);
    BlocksTile(w, h, bs, x, y, c);
    var k :| 0 <= k < |bl| && bl[k] == c;
    assert Contains(bl[k], x, y);
    BlocksRowMajor(w, h, bs);
    forall i, j | 0 <= i < |bl| && 0 <= j < |bl| && Contains(bl[i], x, y) && Contains(bl[j], x, y)
      ensures i == j
    {
      BlocksTile(w, h, bs, x, y, bl[i]);
      BlocksTile(w, h, bs, x, y, bl[j]);
    }
  }

  // ---------------------------------------------------------------------
  // The per-block counts add up to width * height
  // ---------------------------------------------------------------------

  lemma {:induction false} RangeExtents(start: int, stop: int, bs: int)
    requires bs >= 1
    ensures Extents(Range(start, stop, bs), stop, bs) == if start < stop then stop - start else 0
    decreases stop - start
  {
    if start < stop {
      RangeExtents(start + bs, stop, bs);
      assert Range(start, stop, bs)[1..] == Range(start + bs, stop, bs);
    }
  }

  lemma {:induction false} TotalAreaConcat(a: seq<Block>, b: seq<Block>)
    ensures TotalArea(a + b) == TotalArea(a) + TotalArea(b)
  {
    if |a| > 0 {
      TotalAreaConcat(a[1..], b);
      assert (a + b)[1..] == a[1..] + b;
    } else {
      assert a + b == b;
    }
  }

  lemma {:induction false} RowBlocksArea(y: int, xs: seq<int>, w: int, h: int, bs: int)
    ensures TotalArea(RowBlocks(y, xs, w, h, bs)) == Extents(xs, w, bs) * (Min(y + bs, h) - y)
  {
    if |xs| > 0 {
      RowBlocksArea(y, xs[1..], w, h, bs);
      var e := Min(xs[0] + bs, w) - xs[0];
      var band := Min(y + bs, h) - y;
      assert e * band + Extents(xs[1..], w, bs) * band == (e + Extents(xs[1..], w, bs)) * band;
    }
  }

  lemma {:induction false} GridBlocksArea(ys: seq<int>, xs: seq<int>, w: int, h: int, bs: int)
    ensures TotalArea(GridBlocks(ys, xs, w, h, bs)) == Extents(xs, w, bs) * Extents(ys, h, bs)
  {
    if |ys| > 0 {
      RowBlocksArea(ys[0], xs, w, h, bs);
      GridBlocksArea(ys[1..], xs, w, h, bs);
      TotalAreaConcat(RowBlocks(ys[0], xs, w, h, bs), GridBlocks(ys[1..], xs, w, h, bs));
      var ex := Extents(xs, w, bs);
      var band := Min(ys[0] + bs, h) - ys[0];
      assert ex * band + ex * Extents(ys[1..], h, bs) == ex * (band + Extents(ys[1..], h, bs));
    }
  }

  /** The per-block pixel counts add up to width * height: no gaps and no overlaps. */
  lemma BlocksCoverArea(w: nat, h: nat, bs: int)
    requires bs >= 1
    ensures TotalArea(Blocks(w, h, bs)) == w * h
  {
    GridBlocksArea(Range(0, h, bs), Range(0, w, bs), w, h, bs);
    RangeExtents(0, w, bs);
    RangeExtents(0, h, bs);
  }
}
