# Radix sort, block pixelation and the RGB tile, in Dafny

This project models the pure logic of three small image tools.

- **`RadixSorter`** (trinkets/sort_image.py) is a least-significant-digit radix sort of fixed-length integer tuples, such as pixels.
  - A whole channel is one digit. Channels are visited from the last to the first.
  - Each pass drops every item into one of `max_value + 1` buckets keyed by the current channel. The buckets are then concatenated in order.
  - `max_value` defaults to 255 (`RadixSort.DefaultMaxValue`, used by `RadixSort.DefaultBoundExample` and `RadixSort.DefaultBoundRejects`).
  - An item whose channel value has no bucket makes Python raise `IndexError`. The model returns `Failure(IndexOutOfRange)` instead.
- **Block pixelation** (trinkets/pixelate.py) is modelled through its exact per-block algorithm.
  - This is the manual-loop version the file keeps at its end, inside a triple-quoted string (lines 89-172). That code is never executed. It is the algorithm the live function approximates, so it is modelled here as the reference semantics.
  - The image is cut into `block_size` x `block_size` blocks, clipped at the right and bottom edges. Each block is overwritten with the per-channel mean of its pixels, truncated to an integer.
  - The live `pixelate_image` shares two things with this model: the rejection of a non-positive block size, and the `max(1, size // block_size)` reduced dimensions. Both are modelled.
- **The RGB tile** (trinkets/rgb_slider.py) contributes two computations from its Tk callbacks:
  - the `#rrggbb` colour string built from the three slider values;
  - the centred square tile laid out for a canvas of width `w` and height `h`.

## Structure of the model

Files:

- `results.dfy` holds `Result` and `Option`.
- `pixels.dfy` holds `Pixel = seq<int>`, a tuple of channel values.
- `int_math.dfy` holds Python's `min` and `max`.
- `radix_sort.dfy`, `pixelate.dfy` and `rgb_slider.dfy` hold one tool each.

Each tool is written twice:

- **A functional reference definition.**
  - `RadixSort.Pass` concatenates the per-key subsequences `RadixSort.Bucket`.
  - `Pixelate.Pixelated` gives each pixel the `Pixelate.Average` of the clipped block that covers it.
- **Methods that follow the Python loops line by line.**
  - `RadixSort.SortItems` and `RadixSort.BucketPass` follow the sort.
  - `Pixelate.PixelateImage`, `Pixelate.CollectBlock`, `Pixelate.FillBlock` and `Pixelate.AverageColor` follow the pixelation.
  - Each method is proved to compute the reference definition.

The Python block loop mutates the image in place. The proof shows this is harmless: blocks are disjoint, and each block is fully read before it is written. `Pixelate.Progress` is the loop invariant that records this.

## Model

| member | source | states |
|---|---|---|
| RadixSort.Bucket | trinkets/sort_image.py:38-40 | no ensures of its own: the items bucket v receives, in input order; BucketMembers, BucketOfBucket and BucketOfAbsentKey give its meaning |
| RadixSort.BucketMembers | trinkets/sort_image.py:38-40 | an item is in bucket v exactly when it is an input item that has the pass channel and carries v there |
| RadixSort.Buckets | trinkets/sort_image.py:41 | no ensures of its own: buckets lo..hi-1 concatenated in index order; BucketsMembers, BucketsPermute and BucketOfBuckets give its meaning |
| RadixSort.BucketsMembers | trinkets/sort_image.py:38-41 | an item is in the concatenation of buckets lo..hi-1 exactly when it is an input item whose key lies in [lo, hi) |
| RadixSort.BucketsPermute | trinkets/sort_image.py:38-41 | when every key lies in [lo, hi), the concatenated buckets are a permutation of the input |
| RadixSort.Pass | trinkets/sort_image.py:38-41 | no ensures of its own: one pass over channel c with max_value + 1 buckets; PassPermutes, PassStable and PassSorts give its meaning |
| RadixSort.PassPermutes | trinkets/sort_image.py:38-41 | one pass with every key in 0..max_value is a permutation of its input: no item lost or duplicated |
| RadixSort.BucketOfBuckets | trinkets/sort_image.py:41 | the items with key v in the concatenation are exactly bucket v, or nothing if v is outside the bucket range |
| RadixSort.PassStable | trinkets/sort_image.py:38-41 | each pass is stable: for every key, the items with that key appear in the same relative order before and after the pass |
| RadixSort.LexAntisymmetric | trinkets/sort_image.py:37-41 | two tuples each lexicographically at most the other on channels k..n-1 agree on those channels |
| RadixSort.BucketSorted | trinkets/sort_image.py:38-41 | a bucket of a sequence sorted on channels c+1..n-1 is sorted on channels c..n-1 |
| RadixSort.PassSorts | trinkets/sort_image.py:37-41 | the loop invariant: a pass on channel c over a sequence sorted on channels c+1..n-1 leaves it sorted on channels c..n-1 |
| RadixSort.SortFrom | trinkets/sort_image.py:37-41 | after the passes for channels n-1 down to k, the items are a permutation of the input, sorted lexicographically on channels k..n-1 |
| RadixSort.SortFromStep | trinkets/sort_image.py:37-41 | the pass for channel k runs on the result of the passes for channels k+1..n-1, whose keys on channel k are still in range |
| RadixSort.Sort | trinkets/sort_image.py:21-43 | an empty input gives the empty list; IndexError exactly when some item lacks a channel or has a value above max_value; otherwise a permutation of the input sorted lexicographically with channel 0 most significant |
| RadixSort.SortedUnique | trinkets/sort_image.py:37-43 | two sorted sequences of equal-length tuples with the same multiset are equal |
| RadixSort.SortDeterministic | trinkets/sort_image.py:37-43 | inputs holding the same tuples, in any order, give identical results |
| RadixSort.SortOfSorted | trinkets/sort_image.py:37-43 | a sorted input whose keys are in range comes back unchanged |
| RadixSort.SortIdempotent | trinkets/sort_image.py:37-43 | sorting the sorter's output again succeeds and returns that same output |
| RadixSort.SortExample | trinkets/sort_image.py:21-43 | (10,20,30), (5,25,35), (5,1,1) sort to (5,1,1), (5,25,35), (10,20,30) for any max_value of at least 35 |
| RadixSort.DefaultBoundExample | trinkets/sort_image.py:12 | with the default max_value of 255 the worked example sorts to (5,1,1), (5,25,35), (10,20,30) |
| RadixSort.DefaultBoundRejects | trinkets/sort_image.py:12 | with the default max_value of 255 a channel value of 256 raises IndexError |
| RadixSort.SortOneChannel | trinkets/sort_image.py:31-43 | when the first item has a single channel, the sort is exactly one pass on channel 0 |
| RadixSort.MixedLengthsSort | trinkets/sort_image.py:31-43 | [(1,), (0,5)] sorts on channel 0 alone, the channel count of the first item, to [(0,5), (1,)] |
| RadixSort.MixedLengthsResortFails | trinkets/sort_image.py:31-43 | sorting [(0,5), (1,)] raises IndexError, since (1,) has no channel 1: idempotence needs tuples of one length |
| RadixSort.Distribute | trinkets/sort_image.py:38-40 | the bucket list has max_value + 1 entries and bucket v holds the items with key v in input order; fails exactly when some key has no bucket |
| RadixSort.Concatenate | trinkets/sort_image.py:41 | flattening the buckets in index order gives the concatenation of buckets 0..len-1 |
| RadixSort.BucketPass | trinkets/sort_image.py:38-41 | the loop body for one channel raises IndexError exactly when a key is missing or above max_value, and otherwise computes the reference pass |
| RadixSort.SortItems | trinkets/sort_image.py:31-43 | the method, with its loop over channels from last to first, returns the same result as the reference Sort |
| Pixelate.TruncDiv | trinkets/pixelate.py:103 | int(s / n) truncates toward zero: for s >= 0 the quotient is the floor; for s < 0 it is the ceiling |
| Pixelate.BlockIndex | trinkets/pixelate.py:117-118 | the blocks starting at multiples of b tile the line: p lies in block k exactly when k == p / b, so blocks never overlap |
| Pixelate.Origin | trinkets/pixelate.py:117-118 | the block start covering pixel p is at most p and within b of it |
| Pixelate.OriginInBlock | trinkets/pixelate.py:117-118 | a pixel in [k*b, k*b+b) belongs to the block starting at k*b |
| Pixelate.ChannelSum | trinkets/pixelate.py:99-102 | no ensures of its own: the sums loop's total for channel i; ChannelSumUniform and ChannelSumBounds give its meaning |
| Pixelate.Average | trinkets/pixelate.py:95-103 | the average has as many channels as the first pixel; each non-negative channel sum s gives q with q*n <= s < q*n + n |
| Pixelate.TruncDivExact | trinkets/pixelate.py:103 | dividing v*n by n gives back v for either sign of v |
| Pixelate.AverageOfUniform | trinkets/pixelate.py:95-103 | averaging pixels that are all equal to v gives v |
| Pixelate.AverageChannelOfUniform | trinkets/pixelate.py:95-103 | averaging pixels that agree on a channel keeps that channel's value |
| Pixelate.AverageChannelInRange | trinkets/pixelate.py:95-103 | a channel in [lo, hi] (lo >= 0) in every pixel averages into [lo, hi]; with [0, 255], 8-bit channels stay 8-bit |
| Pixelate.AverageColor | trinkets/pixelate.py:95-103 | the summing loops of average_color compute the reference Average |
| Pixelate.Rows | trinkets/pixelate.py:119-124 | no ensures of its own: the pixels of the rectangle row by row, left to right; RowsLength, RowsAll and RowsMembers give its meaning |
| Pixelate.RowsLength | trinkets/pixelate.py:119-124 | one pixel is collected per pixel of the rectangle: (y1-y0)*(x1-x0) in all |
| Pixelate.RowsAll | trinkets/pixelate.py:119-124 | a property shared by every pixel of the rectangle holds for every collected pixel |
| Pixelate.RowsMembers | trinkets/pixelate.py:119-124 | a pixel is collected exactly when it occurs in the rectangle [x0, x1) x [y0, y1) |
| Pixelate.Block | trinkets/pixelate.py:117-124 | the block at a pixel of the image is never empty and its pixels have the image's channel count |
| Pixelate.BlockColor | trinkets/pixelate.py:117-127 | the colour of the block covering (x, y) has the image's channel count; BlockColorOf and BlockUniform tie it to the grid block |
| Pixelate.BlockColorOf | trinkets/pixelate.py:117-127 | any pixel inside grid block (col, row) takes the average of the block starting at (col*b, row*b) |
| Pixelate.Pixelated | trinkets/pixelate.py:117-132 | the result has the input's height, width and channel count, and is rectangular |
| Pixelate.CollectBlock | trinkets/pixelate.py:119-124 | the collecting loops gather the block's pixels row by row, left to right |
| Pixelate.FillBlock | trinkets/pixelate.py:129-132 | the writing loops set every pixel of the rectangle to the average and leave every other pixel unchanged |
| Pixelate.ProgressStep | trinkets/pixelate.py:117-132 | processing one block keeps the loop invariant: finished blocks hold their averages, and pixels not yet reached are untouched |
| Pixelate.ProgressDone | trinkets/pixelate.py:117-132 | once the row loop has passed the last band, the image equals the reference result |
| Pixelate.PixelateBlock | trinkets/pixelate.py:119-132 | collecting, averaging and writing back one block advances the loop invariant by one block |
| Pixelate.PixelateImage | trinkets/pixelate.py:106-132 | a block size <= 0 raises ValueError before any pixel is read; otherwise the in-place loop produces the reference Pixelated image |
| Pixelate.BlockUniform | trinkets/pixelate.py:117-132 | every pixel of a clipped grid block receives the identical average of exactly that block's input pixels |
| Pixelate.PixelatedBlockIsUniform | trinkets/pixelate.py:130-132 | every pixel of the block covering (px, py) holds the colour of (px, py) |
| Pixelate.SinglePixelBlock | trinkets/pixelate.py:117-124 | with block size 1 the block at a pixel is that pixel alone |
| Pixelate.UnitBlockAt | trinkets/pixelate.py:95-132 | with block size 1 every pixel comes out as it went in |
| Pixelate.UnitBlockIdentity | trinkets/pixelate.py:95-132 | block size 1 returns the image unchanged |
| Pixelate.AverageOfUniformBlock | trinkets/pixelate.py:95-124 | a block whose pixels all equal v averages to v |
| Pixelate.RepixelatedAt | trinkets/pixelate.py:95-132 | the block colour a pixelated image gives any pixel is the colour that pixel already holds |
| Pixelate.PixelateIdempotent | trinkets/pixelate.py:95-132 | pixelating twice with the same block size gives the same image as pixelating once |
| Pixelate.BlockChannelInRange | trinkets/pixelate.py:95-127 | when every pixel's channel i lies in [lo, hi] (lo >= 0), so does the block colour's |
| Pixelate.PixelatedInRange | trinkets/pixelate.py:95-132 | channel values in [lo, hi] (lo >= 0), e.g. [0, 255], stay in [lo, hi] after pixelation |
| Pixelate.BlockChannelUniform | trinkets/pixelate.py:117-132 | a block whose pixels all share the value v in channel i comes out with v in channel i everywhere |
| Pixelate.TopLeftBlockExample | trinkets/pixelate.py:117-132 | in a 4 x 4 image with block size 2, a top-left block with 10 in channel 0 keeps 10 there |
| Pixelate.ReducedSize | trinkets/pixelate.py:25-26 | max(1, size // b) is at least 1, at most size for a non-empty side, and the largest multiple count of b in size when b <= size |
| Pixelate.ReducedDimensions | trinkets/pixelate.py:15-26 | a block size <= 0 is rejected; otherwise the reduced width and height lie in [1, original] |
| RgbSlider.HexDigit | trinkets/rgb_slider.py:14 | the digit for 0..15 is a lower-case hexadecimal digit whose value is the input |
| RgbSlider.Hex2 | trinkets/rgb_slider.py:14 | format "02x" of a slider value is exactly two lower-case hex digits that read back as the value |
| RgbSlider.Hex2OfPairValue | trinkets/rgb_slider.py:14 | any two-digit lower-case hex string is the "02x" formatting of its value |
| RgbSlider.ColorString | trinkets/rgb_slider.py:14 | for r, g, b in [0, 255] the colour string has length 7 and starts with '#'; it is followed by six lower-case hex digits whose pairs read back as r, g, b in that order |
| RgbSlider.ParseColorString | trinkets/rgb_slider.py:14 | decoding the colour string recovers (r, g, b) |
| RgbSlider.ColorStringOfParse | trinkets/rgb_slider.py:14 | every well-formed "#rrggbb" string is the colour string of the channels it decodes to |
| RgbSlider.ColorStringInjective | trinkets/rgb_slider.py:14 | different slider settings give different colour strings |
| RgbSlider.ColorStringExamples | trinkets/rgb_slider.py:14 | (255, 255, 255) gives "#ffffff", (0, 0, 0) gives "#000000", and (1, 171, 16) gives "#01ab10" |
| RgbSlider.TileSide | trinkets/rgb_slider.py:22-23 | the side is at least 10 for every canvas size; it equals min(w, h) - 2*MARGIN whenever that is at least 10 |
| RgbSlider.Tile | trinkets/rgb_slider.py:20-28 | the tile is a square of that side; x0 and y0 are the floor of half the leftover space, also when the leftover is negative |
| RgbSlider.TileCentred | trinkets/rgb_slider.py:25-28 | the gap right of (below) the tile equals the gap left of (above) it, or exceeds it by one |
| RgbSlider.TileKeepsMargin | trinkets/rgb_slider.py:20-28 | when min(w, h) >= 2*MARGIN + 10, the tile keeps at least MARGIN from every edge, and exactly MARGIN along the shorter dimension |
| RgbSlider.TileExample | trinkets/rgb_slider.py:20-28 | a 1000 x 700 canvas gets the tile (160, 10)-(840, 690); a 5 x 5 canvas gets (-3, -3)-(7, 7) |

## Left out

- Image input and output are not modelled because they are calls into PIL. That covers opening, `convert` to RGB or RGBA, `getdata`/`putdata`, `load` and `save`, including format preservation.
  - The image is a parameter: a rectangular `seq<seq<Pixel>>` whose pixels all have the same number of channels.
  - The missing-file check (`FileNotFoundError`) is also not modelled.
- The live resize path of `pixelate_image` (trinkets/pixelate.py:28-37) is not modelled. It is PIL's bilinear down-scaling followed by nearest-neighbour up-scaling, an interpolating resampler. Its result is not the block mean, and no relation to it is claimed.
- The RGBA-to-RGB conversion at trinkets/pixelate.py:134-136 is not modelled because it is image I/O. Its comment says it applies when the original had no alpha, but it tests the already-converted image, so it always fires. The model's pixels keep whatever channels they are given.
- reduire.py is not part of this model. It is one integer division passed to PIL `resize`/`save`, with errors printed rather than raised.
- The command-line front ends are not modelled: argparse, `main`, printing and `SystemExit`.
- The Tk user interface is not modelled: widgets, `get`/`itemconfig`/`coords`, event binding, globals and `mainloop`. The slider values and the canvas size are parameters.
- RadixSort.Sort: a negative channel value is excluded by `requires`. In Python a value in [-(max_value+1), -1] silently indexes the bucket list from its end, which places the item under another key, and the order guarantee does not hold; a value below -(max_value+1) raises IndexError like a value above max_value.
- RadixSort.SortIdempotent: requires every tuple to have exactly `len(items[0])` channels, as does RadixSort.SortOfSorted. Without it, [(1,), (0,5)] sorts to [(0,5), (1,)], and sorting that again raises IndexError because (1,) has no channel 1 (MixedLengthsSort, MixedLengthsResortFails).
- RadixSort.SortDeterministic: requires every tuple to have exactly `len(items[0])` channels. Tuples that are longer but agree on the first channels keep their input order, so the result then depends on it.
- Pixelate.TruncDiv: `int(s / n)` is computed in Python with float division and then truncated. The model divides integers exactly and truncates toward zero. The two agree while the sum fits the 53-bit float mantissa, which holds for any real image of 8-bit channels.
- Pixelate.Average: requires every pixel to have at least as many channels as the first. A shorter pixel would make Python raise IndexError, which cannot happen for the rectangular images the loop is given.
- RgbSlider.ColorString: requires each channel in [0, 255], the slider bounds at trinkets/rgb_slider.py:64-65, 76-77 and 88-89. Outside that range, "02x" would produce more digits or a minus sign.
- Concurrency is not modelled because the repository has none.
