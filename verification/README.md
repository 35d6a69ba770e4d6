# Block mosaic filter — a verified Dafny model

This project models `mosaic_filter` from the image-filter application
(`tarea1_pdi.py`). The filter cuts an RGB image into square blocks of
`block_size` pixels. It visits the blocks row by row: the outer loop walks
y, the inner loop walks x. Blocks at the right and bottom edges are cut
short with `min`. For each block it sums the R, G and B channels over the
original pixels and counts them. It then floor-divides each sum by the
count. Finally it writes that mean colour to every pixel of the block in
a copy of the image.

Modules, leaves first:

- `Arith` (`arith.dfy`): `Min`, ceiling division, and facts about floor division. For a positive divisor, Dafny's `/` gives the same result as Python's `//`.
- `Images` (`images.dfy`): `Pixel`, `Channel`, `Image` (`px[y][x]`, row-major), the shape predicate, and the 0..255 range predicate.
- `Tiling` (`tiling.dfy`): Python's `range`, the block sequence the two outer loops visit (`Blocks`), the block covering a pixel (`BlockOf`), and the tiling lemmas.
- `Aggregation` (`aggregation.dfy`): channel sums in loop order, the floor mean `BlockMean`, and its bounds.
- `Mosaic` (`mosaic.dfy`): the filter as a pure pixel-wise function `Apply`, with lemmas for block fill, fixpoint and idempotence.
- `Loops` (`loops.dfy`): the nested loops as methods. Their loop invariants prove that the methods compute `Apply`. This module also holds the entry point, including the default block size of 10 and the handling of a zero or negative block size.

Two edge cases follow the code rather than a more forgiving design:

- An invalid block size is not replaced by a default. A block size of 0 makes `range` raise `ValueError`, so `Loops.MosaicFilter` returns `Err(ZeroBlockSize)`. A negative block size makes the outer `range` empty, so the unchanged copy comes back.
- A zero-area image is not special-cased. It produces no blocks, and its copy is returned. The model allows width or height 0 and does the same.

## Model

| member | source | states |
|---|---|---|
| Tiling.RangeMembership | tarea1_pdi.py:20-21 | `range(start, stop, bs)` contains v exactly when start <= v < stop and v - start is a multiple of bs |
| Tiling.RangeIncreasing | tarea1_pdi.py:20-21 | the block origins are produced in strictly increasing order |
| Tiling.RangeLength | tarea1_pdi.py:20-21 | there are ceil((stop - start) / bs) origins, and none when start >= stop |
| Tiling.BlockOrigins | tarea1_pdi.py:20-26 | a block is visited iff its origin is a multiple of bs below width and height and its far corner is the clipped `min(origin + bs, limit)` |
| Tiling.BlocksRowMajor | tarea1_pdi.py:20-21 | blocks are visited in strict row-major order (y outer, x inner), so none is visited twice |
| Tiling.BlocksCount | tarea1_pdi.py:20-21 | the number of blocks is ceil(height/bs) * ceil(width/bs), or 0 for an empty dimension |
| Tiling.BlocksNonEmpty | tarea1_pdi.py:25-35 | every visited block lies in the image, is at most bs wide and tall, and has count >= 1, so the divisions never divide by zero |
| Tiling.BlockOf | tarea1_pdi.py:20-26 | the block at origin ((x // bs) * bs, (y // bs) * bs) contains pixel (x, y), lies inside the image, is aligned to bs and is non-empty |
| Tiling.SameBlock | tarea1_pdi.py:25-26 | every pixel of a block is assigned that same block |
| Tiling.AlignedBlock | tarea1_pdi.py:25-26 | a clipped block at an aligned origin is the block of each pixel it contains |
| Tiling.BlocksTile | tarea1_pdi.py:20-26 | the block of each pixel is visited, and a visited block contains the pixel iff it is that block |
| Tiling.PixelInExactlyOneBlock | tarea1_pdi.py:20-26 | each pixel lies in exactly one position of the visiting sequence (no gaps, no overlaps) |
| Tiling.BlocksCoverArea | tarea1_pdi.py:20-31 | the per-block pixel counts add up to width * height |
| Aggregation.BlockMeanBounded | tarea1_pdi.py:33-35 | if every pixel of the block has a channel in [lo, hi], the floor mean of that channel is in [lo, hi] |
| Aggregation.BlockMeanAttained | tarea1_pdi.py:27-35 | the floor mean of each channel lies between the block's minimum and maximum of that channel |
| Aggregation.BlockMeanOfUniform | tarea1_pdi.py:27-35 | a block whose pixels are all colour c has mean c, because (n * c) // n == c |
| Aggregation.BlockMeanValid | tarea1_pdi.py:33-35 | the mean of 8-bit pixels stays in 0..255 |
| Mosaic.Apply | tarea1_pdi.py:15-16 | the output has the same width and height as the input |
| Mosaic.ApplyFillsBlocks | tarea1_pdi.py:15-39 | for every visited block, each output pixel inside it is that block's mean over the original image |
| Mosaic.UniformBlockKept | tarea1_pdi.py:22-39 | a block that is already one colour keeps that colour |
| Mosaic.ApplyValid | tarea1_pdi.py:33-39 | filtering an image of 8-bit pixels yields an image of 8-bit pixels |
| Mosaic.ApplyBlockUniform | tarea1_pdi.py:37-39 | after filtering, every pixel equals the pixel at the origin of its block |
| Mosaic.ApplyFixpoint | tarea1_pdi.py:20-39 | an image that is uniform on every block is returned unchanged |
| Mosaic.SolidImageUnchanged | tarea1_pdi.py:20-39 | a solid-colour image is returned unchanged |
| Mosaic.ApplyIdempotent | tarea1_pdi.py:20-39 | filtering twice with the same block size gives the same image as filtering once |
| Mosaic.SolidExample | tarea1_pdi.py:20-39 | a 20 x 20 image of (128, 64, 32) with block size 10 comes back unchanged |
| Mosaic.EdgeBlockExample | tarea1_pdi.py:25-39 | on a 3 x 1 image with block size 2, the means of the first block are floored, and the clipped one-pixel edge block keeps its colour |
| Loops.BlockTotals | tarea1_pdi.py:22-31 | the accumulation loops compute the channel sums over exactly the block's pixels, and a count equal to its area |
| Loops.FillBlock | tarea1_pdi.py:37-39 | the fill loops write the colour to exactly the block's pixels and leave every other pixel unchanged |
| Loops.MosaicBlock | tarea1_pdi.py:22-39 | one block iteration writes the mosaic colour to exactly the visited block's pixels and keeps every other pixel of the copy |
| Loops.MosaicLoops | tarea1_pdi.py:15-41 | the nested loops, reading only the original and writing into a copy, produce exactly `Mosaic.Apply`, and the blocks they visit, in order, are exactly `Tiling.Blocks` |
| Loops.MosaicFilter | tarea1_pdi.py:8-41 | block size 0 is an error, a negative block size returns the image unchanged, and a positive one returns the mosaic; an omitted block size defaults to 10 |
| Loops.MosaicFilterDefault | tarea1_pdi.py:8 | called without a block size, the filter returns the mosaic with blocks of 10 x 10 pixels |

## Left out

- The Streamlit interface (sidebar, select boxes, columns, image display, messages) in `tarea1_pdi.py:44-99` and `tarea2_pdi_ASCII_Art.py:58-175`: it is interactive plumbing with no behaviour to state. This includes the 1..100 bound on the block-size widget: the model accepts any integer block size.
- Image decoding with PIL (`Image.open`, `.load()`) and PNG encoding for download: these are I/O and foreign library calls. The image is given directly as a grid of RGB triples.
- Non-RGB images: `tarea1_pdi.py:76` does not convert the upload to RGB, but line 27 unpacks exactly three channels. A grey-scale or RGBA upload would make that unpacking fail, and the model has only three-channel pixels.
- The five ASCII-art functions in `tarea2_pdi_ASCII_Art.py:12-52`: they return their input unchanged and contain no logic.
- The grayscale, high-contrast, inverse, RGB-channel and brightness filters: they appear only as menu labels marked pending (`tarea1_pdi.py:49-56`), with no implementation.
- The download file-name table in `tarea2_pdi_ASCII_Art.py:155-166`: it is a UI string table.
- In-place mutation of a PIL pixel buffer: the copy made at `tarea1_pdi.py:15` is modelled as a new immutable image value. The original is therefore read-only by construction.
