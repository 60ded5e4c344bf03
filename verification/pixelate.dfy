/** Block pixelation (trinkets/pixelate.py). The exact semantics is the
    per-block averaging loop kept at the end of that file inside a string
    literal: every block_size x block_size block, clipped at the right and
    bottom edges, is overwritten with the per-channel mean of its pixels.
    The live pixelate_image only shares its block-size guard and the
    reduced-size arithmetic with this model. */
module Pixelate {
  import opened Results
  import opened Pixels
  import opened IntMath

  /** A raster as rows of pixels: img[y][x], row 0 at the top. */
  type Image = seq<seq<Pixel>>

  /** The ValueError raised for a block size that is not positive. */
  datatype PixelateError = NonPositiveBlockSize

  /** The number of pixels in each row (0 for an image without rows). */
  function Width(img: Image): nat {
    if |img| == 0 then 0 else |img[0]|
  }

  /** The number of channels of each pixel (0 for an image without pixels). */
  function Channels(img: Image): nat {
    if Width(img) == 0 then 0 else |img[0][0]|
  }

  /** Every row has the same width and every pixel the same channel count. */
  predicate WellFormed(img: Image) {
    forall y :: 0 <= y < |img| ==>
      |img[y]| == Width(img) && forall x :: 0 <= x < |img[y]| ==> |img[y][x]| == Channels(img)
  }

  /** int(s / n) for a positive count n: the quotient rounded toward zero. */
  function TruncDiv(s: int, n: int): (q: int)
    requires n > 0
    ensures 0 <= s ==> 0 <= q * n <= s < q * n + n
    ensures s < 0 ==> q * n - n < s <= q * n <= 0
  {
    if s >= 0 then
      DivFloor(s, n);
      MulMono(0, s / n, n);
      s / n
    else
      DivFloor(-s, n);
      MulMono(0, (-s) / n, n);
      MulFacts((-s) / n, n);
      -((-s) / n)
  }

  /** A coordinate p lies in the block with index k exactly when k == p / b:
      every coordinate belongs to one block, and blocks do not overlap. */
  lemma BlockIndex(p: int, b: int, k: int)
    requires b > 0
    ensures k * b <= p < k * b + b <==> k == p / b
  {
    var q := p / b;
    DivFloor(p, b);
    MulFacts(k, b);
    MulFacts(q, b);
    if k < q {
      MulMono(k + 1, q, b);
    } else if k > q {
      MulMono(q + 1, k, b);
    }
  }

  /** The first coordinate of the block that covers coordinate p. */
  function Origin(p: nat, b: int): (o: nat)
    requires b > 0
    ensures o <= p < o + b
  {
    BlockIndex(p, b, p / b);
    p / b * b
  }

  /** The block origin of any coordinate inside the block with index k. */
  lemma OriginInBlock(p: nat, b: int, k: nat)
    requires b > 0 && k * b <= p < k * b + b
    ensures Origin(p, b) == k * b
  {
    BlockIndex(p, b, k);
  }

  // ----------------------------------------------------------------------
  // average_color (lines 95-103)

  /** The sum of channel i over all pixels. */
  function ChannelSum(pixels: seq<Pixel>, i: nat): int
    requires forall p :: p in pixels ==> i < |p|
  {
    if |pixels| == 0 then 0
    else ChannelSum(pixels[..|pixels| - 1], i) + pixels[|pixels| - 1][i]
  }

  /** The colour average_color returns: as many channels as the first pixel,
      each the sum over the pixels divided by their count, truncated. */
  function Average(pixels: seq<Pixel>): (avg: Pixel)
    requires |pixels| > 0 && forall p :: p in pixels ==> |pixels[0]| <= |p|
    ensures |avg| == |pixels[0]|
    ensures forall i :: 0 <= i < |avg| && 0 <= ChannelSum(pixels, i) ==>
      0 <= avg[i] * |pixels| <= ChannelSum(pixels, i) < avg[i] * |pixels| + |pixels|
  {
    seq(|pixels[0]|, i requires 0 <= i < |pixels[0]| => TruncDiv(ChannelSum(pixels, i), |pixels|))
  }

  /** A channel that has the value v in every pixel sums to count * v. */
  lemma {:induction false} ChannelSumUniform(pixels: seq<Pixel>, i: nat, v: int)
    requires forall p :: p in pixels ==> i < |p| && p[i] == v
    ensures ChannelSum(pixels, i) == v * |pixels|
  {
    if |pixels| > 0 {
      var m := |pixels| - 1;
      ChannelSumUniform(pixels[..m], i, v);
      assert pixels[m] in pixels;
      MulFacts(m, v);
    }
  }

  /** A channel bounded by [lo, hi] in every pixel sums to within count * [lo, hi]. */
  lemma {:induction false} ChannelSumBounds(pixels: seq<Pixel>, i: nat, lo: int, hi: int)
    requires forall p :: p in pixels ==> i < |p| && lo <= p[i] <= hi
    ensures lo * |pixels| <= ChannelSum(pixels, i) <= hi * |pixels|
  {
    if |pixels| > 0 {
      var m := |pixels| - 1;
      ChannelSumBounds(pixels[..m], i, lo, hi);
      assert pixels[m] in pixels;
      assert ChannelSum(pixels, i) == ChannelSum(pixels[..m], i) + pixels[m][i];
      MulFacts(m, lo);
      MulFacts(m, hi);
    }
  }

  /** Dividing a sum that lies within n * [lo, hi], lo >= 0, lands in [lo, hi]. */
  lemma QuotientBounds(s: int, n: int, lo: int, hi: int)
    requires n > 0 && 0 <= lo && lo * n <= s <= hi * n
    ensures lo <= TruncDiv(s, n) <= hi
  {
    MulMono(0, lo, n);
    var q := TruncDiv(s, n);
    MulFacts(q, n);
    MulFacts(hi, n);
    if q < lo {
      MulMono(q + 1, lo, n);
    } else if q > hi {
      MulMono(hi + 1, q, n);
    }
  }

  /** Dividing v * n by n gives v back, whatever the sign of v. */
  lemma TruncDivExact(v: int, n: int)
    requires n > 0
    ensures TruncDiv(v * n, n) == v
  {
    var q := TruncDiv(v * n, n);
    MulFacts(q, n);
    MulFacts(v, n);
    if v >= 0 {
      MulMono(0, v, n);
    } else {
      MulMono(v, -1, n);
      MulFacts(-1, n);
    }
    if q < v {
      MulMono(q + 1, v, n);
    } else if q > v {
      MulMono(v + 1, q, n);
    }
  }

  /** Averaging pixels that all equal v gives v back. */
  lemma AverageOfUniform(pixels: seq<Pixel>, v: Pixel)
    requires |pixels| > 0 && forall i :: 0 <= i < |pixels| ==> pixels[i] == v
    ensures Average(pixels) == v
  {
    forall i | 0 <= i < |v|
      ensures Average(pixels)[i] == v[i]
    {
      AverageChannelOfUniform(pixels, i, v[i]);
    }
  }

  /** Averaging pixels that agree on channel i gives that channel's value. */
  lemma AverageChannelOfUniform(pixels: seq<Pixel>, i: nat, v: int)
    requires |pixels| > 0 && forall p :: p in pixels ==> |pixels[0]| <= |p|
    requires i < |pixels[0]| && forall p :: p in pixels ==> p[i] == v
    ensures Average(pixels)[i] == v
  {
    ChannelSumUniform(pixels, i, v);
    TruncDivExact(v, |pixels|);
  }

  /** Averaging pixels whose channel i lies in [lo, hi], lo >= 0, keeps it there. */
  lemma AverageChannelInRange(pixels: seq<Pixel>, i: nat, lo: int, hi: int)
    requires |pixels| > 0 && forall p :: p in pixels ==> |pixels[0]| <= |p|
    requires i < |pixels[0]| && 0 <= lo
    requires forall p :: p in pixels ==> lo <= p[i] <= hi
    ensures lo <= Average(pixels)[i] <= hi
  {
    ChannelSumBounds(pixels, i, lo, hi);
    QuotientBounds(ChannelSum(pixels, i), |pixels|, lo, hi);
  }

  /** Lines 95-103: sum every channel over the pixels in one scan, then
      divide each sum by the pixel count. */
  method AverageColor(pixels: seq<Pixel>) returns (avg: Pixel)
    requires |pixels| > 0 && forall p :: p in pixels ==> |pixels[0]| <= |p|
    ensures avg == Average(pixels)
  {
    var count := |pixels|;
    var channels := |pixels[0]|;
    var sums := seq(channels, _ => 0);
    var k := 0;
    while k < count
      invariant 0 <= k <= count && |sums| == channels
      invariant forall i :: 0 <= i < channels ==> sums[i] == ChannelSum(pixels[..k], i)
    {
      var pixel := pixels[k];
      assert pixel in pixels;
      assert pixels[..k + 1][..k] == pixels[..k] && pixels[..k + 1][k] == pixel;
      var i := 0;
      while i < channels
        invariant 0 <= i <= channels && |sums| == channels
        invariant forall j :: 0 <= j < i ==> sums[j] == ChannelSum(pixels[..k + 1], j)
        invariant forall j :: i <= j < channels ==> sums[j] == ChannelSum(pixels[..k], j)
      {
        sums := sums[i := sums[i] + pixel[i]];
        i := i + 1;
      }
      k := k + 1;
    }
    assert pixels[..count] == pixels;
    avg := seq(channels, i requires 0 <= i < channels => TruncDiv(sums[i], count));
  }

  // ----------------------------------------------------------------------
  // Blocks (lines 117-124)

  /** The pixels of columns x0..x1-1 in rows y0..y1-1, row by row, each row
      left to right. */
  function Rows(img: Image, x0: nat, x1: nat, y0: nat, y1: nat): seq<Pixel>
    requires WellFormed(img) && x0 <= x1 <= Width(img) && y0 <= y1 <= |img|
    decreases y1 - y0
  {
    if y1 <= y0 then []
    else Rows(img, x0, x1, y0, y1 - 1) + img[y1 - 1][x0..x1]
  }

  /** One pixel is collected per pixel of the rectangle. */
  lemma {:induction false} RowsLength(img: Image, x0: nat, x1: nat, y0: nat, y1: nat)
    requires WellFormed(img) && x0 <= x1 <= Width(img) && y0 <= y1 <= |img|
    ensures |Rows(img, x0, x1, y0, y1)| == (y1 - y0) * (x1 - x0)
    decreases y1 - y0
  {
    if y0 < y1 {
      RowsLength(img, x0, x1, y0, y1 - 1);
      var h, w := y1 - 1 - y0, x1 - x0;
      assert |Rows(img, x0, x1, y0, y1)| == h * w + w;
      MulFacts(h, w);
    }
  }

  /** A property every pixel of the rectangle has, every collected pixel has. */
  lemma {:induction false} RowsAll(img: Image, x0: nat, x1: nat, y0: nat, y1: nat, P: Pixel -> bool)
    requires WellFormed(img) && x0 <= x1 <= Width(img) && y0 <= y1 <= |img|
    requires forall y, x :: y0 <= y < y1 && x0 <= x < x1 ==> P(img[y][x])
    ensures forall p :: p in Rows(img, x0, x1, y0, y1) ==> P(p)
    decreases y1 - y0
  {
    if y0 < y1 {
      RowsAll(img, x0, x1, y0, y1 - 1, P);
      forall p | p in img[y1 - 1][x0..x1]
        ensures P(p)
      {
        var x :| x0 <= x < x1 && img[y1 - 1][x] == p;
      }
    }
  }

  /** Pixel p occurs in rows y0..y1-1, columns x0..x1-1 of img. */
  ghost predicate InRect(img: Image, x0: nat, x1: nat, y0: nat, y1: nat, p: Pixel)
    requires WellFormed(img) && x0 <= x1 <= Width(img) && y0 <= y1 <= |img|
  {
    exists y, x :: y0 <= y < y1 && x0 <= x < x1 && img[y][x] == p
  }

  /** Splitting off the last row of the rectangle. */
  lemma InRectLastRow(img: Image, x0: nat, x1: nat, y0: nat, y1: nat, p: Pixel)
    requires WellFormed(img) && x0 <= x1 <= Width(img) && y0 < y1 <= |img|
    ensures InRect(img, x0, x1, y0, y1, p) <==> InRect(img, x0, x1, y0, y1 - 1, p) || p in img[y1 - 1][x0..x1]
  {
    if InRect(img, x0, x1, y0, y1, p) {
      var y, x :| y0 <= y < y1 && x0 <= x < x1 && img[y][x] == p;
      if y == y1 - 1 {
        assert img[y1 - 1][x0..x1][x - x0] == p;
      } else {
        assert InRect(img, x0, x1, y0, y1 - 1, p);
      }
    }
    if p in img[y1 - 1][x0..x1] {
      var i :| 0 <= i < x1 - x0 && img[y1 - 1][x0..x1][i] == p;
      assert img[y1 - 1][x0 + i] == p;
    }
  }

  /** The collected pixels are exactly the pixels of the rectangle. */
  lemma {:induction false} RowsMembers(img: Image, x0: nat, x1: nat, y0: nat, y1: nat, p: Pixel)
    requires WellFormed(img) && x0 <= x1 <= Width(img) && y0 <= y1 <= |img|
    ensures p in Rows(img, x0, x1, y0, y1) <==> InRect(img, x0, x1, y0, y1, p)
    decreases y1 - y0
  {
    if y0 < y1 {
      RowsMembers(img, x0, x1, y0, y1 - 1, p);
      InRectLastRow(img, x0, x1, y0, y1, p);
    }
  }

  /** Images that agree on a rectangle yield the same collected pixels there. */
  lemma {:induction false} RowsAgree(a: Image, b: Image, x0: nat, x1: nat, y0: nat, y1: nat)
    requires WellFormed(a) && WellFormed(b) && |a| == |b| && Width(a) == Width(b)
    requires x0 <= x1 <= Width(a) && y0 <= y1 <= |a|
    requires forall y, x :: y0 <= y < y1 && x0 <= x < x1 ==> a[y][x] == b[y][x]
    ensures Rows(a, x0, x1, y0, y1) == Rows(b, x0, x1, y0, y1)
    decreases y1 - y0
  {
    if y0 < y1 {
      RowsAgree(a, b, x0, x1, y0, y1 - 1);
      var y := y1 - 1;
      assert a[y][x0..x1] == b[y][x0..x1] by {
        forall x | x0 <= x < x1
          ensures a[y][x] == b[y][x]
        {
        }
      }
    }
  }

  /** The pixels of the block whose top-left pixel is (x0, y0), clipped at
      the right and bottom edges of the image. */
  function Block(img: Image, b: int, x0: nat, y0: nat): (r: seq<Pixel>)
    requires WellFormed(img) && b > 0 && x0 < Width(img) && y0 < |img|
    ensures |r| > 0 && forall p :: p in r ==> |p| == Channels(img)
  {
    var x1, y1 := Min(x0 + b, Width(img)), Min(y0 + b, |img|);
    RowsLength(img, x0, x1, y0, y1);
    MulMono(1, y1 - y0, x1 - x0);
    RowsAll(img, x0, x1, y0, y1, (p: Pixel) => |p| == Channels(img));
    Rows(img, x0, x1, y0, y1)
  }

  /** The colour the block covering pixel (x, y) is flattened to. */
  function BlockColor(img: Image, b: int, x: nat, y: nat): (c: Pixel)
    requires WellFormed(img) && b > 0 && x < Width(img) && y < |img|
    ensures |c| == Channels(img)
  {
    var block := Block(img, b, Origin(x, b), Origin(y, b));
    assert block[0] in block;
    Average(block)
  }

  /** The result of the block loop: every pixel replaced by the colour of
      the block that covers it. */
  function Pixelated(img: Image, b: int): (r: Image)
    requires WellFormed(img) && b > 0
    ensures |r| == |img| && Width(r) == Width(img) && WellFormed(r)
    ensures |img| > 0 && Width(img) > 0 ==> Channels(r) == Channels(img)
  {
    seq(|img|, y requires 0 <= y < |img| =>
      seq(Width(img), x requires 0 <= x < Width(img) => BlockColor(img, b, x, y)))
  }

  // ----------------------------------------------------------------------
  // The block loop (lines 117-132)

  /** Lines 119-124: collect the pixels of rows y0..y1-1, columns x0..x1-1. */
  method CollectBlock(img: Image, x0: nat, x1: nat, y0: nat, y1: nat) returns (pixels: seq<Pixel>)
    requires WellFormed(img) && x0 <= x1 <= Width(img) && y0 <= y1 <= |img|
    ensures pixels == Rows(img, x0, x1, y0, y1)
  {
    pixels := [];
    var row := y0;
    while row < y1
      invariant y0 <= row <= y1
      invariant pixels == Rows(img, x0, x1, y0, row)
    {
      ghost var before := pixels;
      var col := x0;
      while col < x1
        invariant x0 <= col <= x1
        invariant pixels == before + img[row][x0..col]
      {
        assert img[row][x0..col + 1] == img[row][x0..col] + [img[row][col]];
        pixels := pixels + [img[row][col]];
        col := col + 1;
      }
      row := row + 1;
    }
  }

  /** Lines 130-132: write colour c to every pixel of rows y0..y1-1,
      columns x0..x1-1, leaving the rest of the image alone. */
  method FillBlock(img: Image, x0: nat, x1: nat, y0: nat, y1: nat, c: Pixel) returns (out: Image)
    requires WellFormed(img) && x0 <= x1 <= Width(img) && y0 <= y1 <= |img|
    ensures |out| == |img| && forall y :: 0 <= y < |out| ==> |out[y]| == |img[y]|
    ensures forall y, x :: 0 <= y < |img| && 0 <= x < Width(img) ==>
      out[y][x] == if y0 <= y < y1 && x0 <= x < x1 then c else img[y][x]
  {
    out := img;
    var row := y0;
    while row < y1
      invariant y0 <= row <= y1
      invariant |out| == |img| && forall y :: 0 <= y < |out| ==> |out[y]| == |img[y]|
      invariant forall y, x :: 0 <= y < |img| && 0 <= x < Width(img) ==>
        out[y][x] == if y0 <= y < row && x0 <= x < x1 then c else img[y][x]
    {
      var col := x0;
      while col < x1
        invariant x0 <= col <= x1
        invariant |out| == |img| && forall y :: 0 <= y < |out| ==> |out[y]| == |img[y]|
        invariant forall y, x :: 0 <= y < |img| && 0 <= x < Width(img) ==>
          out[y][x] == if (y0 <= y < row && x0 <= x < x1) || (y == row && x0 <= x < col) then c else img[y][x]
      {
        out := out[row := out[row][col := c]];
        col := col + 1;
      }
      row := row + 1;
    }
  }

  /** The state of the block loop before the block at (x, y): the blocks
      above row y, and those of the band of rows from y left of column x,
      hold their block colours; every other pixel is still the input's. */
  ghost predicate Progress(img: Image, out: Image, b: int, x: int, y: int)
    requires WellFormed(img) && b > 0
  {
    && |out| == |img|
    && (forall py :: 0 <= py < |img| ==> |out[py]| == Width(img))
    && forall py, px :: 0 <= py < |img| && 0 <= px < Width(img) ==>
         out[py][px] == if py < y || (py < y + b && px < x) then BlockColor(img, b, px, py) else img[py][px]
  }

  /** A loop state is an image of the input's shape. */
  lemma ProgressWellFormed(img: Image, out: Image, b: int, x: int, y: int)
    requires WellFormed(img) && b > 0 && Progress(img, out, b, x, y)
    ensures WellFormed(out) && Width(out) == Width(img)
    ensures Width(img) > 0 ==> Channels(out) == Channels(img)
  {
    if |img| > 0 && Width(img) > 0 {
      assert |out[0][0]| == Channels(img);
    }
  }

  /** Finishing the last block of a band of rows starts the next band. */
  lemma ProgressNextBand(img: Image, out: Image, b: int, x: int, y: int)
    requires WellFormed(img) && b > 0 && Width(img) <= x
    requires Progress(img, out, b, x, y)
    ensures Progress(img, out, b, 0, y + b)
  {
  }

  /** Once every band is done, the loop state is the pixelated image. */
  lemma ProgressDone(img: Image, out: Image, b: int, y: int)
    requires WellFormed(img) && b > 0 && |img| <= y
    requires Progress(img, out, b, 0, y)
    ensures out == Pixelated(img, b)
  {
    var p := Pixelated(img, b);
    forall py | 0 <= py < |img|
      ensures out[py] == p[py]
    {
      assert |out[py]| == |p[py]|;
      forall px | 0 <= px < Width(img)
        ensures out[py][px] == p[py][px]
      {
      }
    }
  }

  /** The block the loop is about to visit still holds the input's pixels. */
  lemma UnvisitedBlock(img: Image, out: Image, b: int, x: nat, y: nat)
    requires WellFormed(img) && b > 0 && x < Width(img) && y < |img|
    requires Progress(img, out, b, x, y)
    ensures WellFormed(out) && |out| == |img| && Width(out) == Width(img)
    ensures Rows(out, x, Min(x + b, Width(img)), y, Min(y + b, |img|)) == Block(img, b, x, y)
    ensures forall p :: p in Block(img, b, x, y) ==> |Block(img, b, x, y)[0]| <= |p|
  {
    ProgressWellFormed(img, out, b, x, y);
    RowsAgree(out, img, x, Min(x + b, Width(img)), y, Min(y + b, |img|));
    assert Block(img, b, x, y)[0] in Block(img, b, x, y);
  }

  /** Writing the block's average over the block at (x, y) advances the
      loop state by one block. */
  lemma ProgressStep(img: Image, out: Image, next: Image, b: int, x: nat, y: nat, col: nat, row: nat)
    requires WellFormed(img) && b > 0 && x < Width(img) && y < |img|
    requires x == col * b && y == row * b
    requires Progress(img, out, b, x, y)
    requires |next| == |img| && forall py :: 0 <= py < |next| ==> |next[py]| == |out[py]|
    requires forall py, px :: 0 <= py < |img| && 0 <= px < Width(img) ==>
      next[py][px] == if y <= py < Min(y + b, |img|) && x <= px < Min(x + b, Width(img))
                      then Average(Block(img, b, x, y)) else out[py][px]
    ensures Progress(img, next, b, x + b, y)
  {
    forall py, px | y <= py < Min(y + b, |img|) && x <= px < Min(x + b, Width(img))
      ensures BlockColor(img, b, px, py) == Average(Block(img, b, x, y))
    {
      OriginInBlock(px, b, col);
      OriginInBlock(py, b, row);
    }
  }

  /** Lines 119-132 for the block whose top-left pixel is (x, y), block
      (col, row) of the grid: collect it, average it, write the average back. */
  method PixelateBlock(img: Image, out: Image, b: int, x: nat, y: nat, ghost col: nat, ghost row: nat)
    returns (next: Image)
    requires WellFormed(img) && b > 0 && x < Width(img) && y < |img|
    requires x == col * b && y == row * b
    requires Progress(img, out, b, x, y)
    ensures Progress(img, next, b, x + b, y)
  {
    var x1, y1 := Min(x + b, Width(img)), Min(y + b, |img|);
    UnvisitedBlock(img, out, b, x, y);
    var pixels := CollectBlock(out, x, x1, y, y1);
    var avg := AverageColor(pixels);
    next := FillBlock(out, x, x1, y, y1, avg);
    ProgressStep(img, out, next, b, x, y, col, row);
  }

  /** Lines 106-132: reject a block size that is not positive, then run the
      block loop band by band, each band left to right. */
  method PixelateImage(img: Image, blockSize: int) returns (r: Result<Image, PixelateError>)
    requires WellFormed(img)
    ensures r.Failure? <==> blockSize <= 0
    ensures r.Success? ==> r.value == Pixelated(img, blockSize)
  {
    if blockSize <= 0 {
      return Failure(NonPositiveBlockSize);
    }
    var b := blockSize;
    var out := img;
    var y := 0;
    ghost var row := 0;
    while y < |img|
      invariant y == row * b
      invariant Progress(img, out, b, 0, y)
    {
      var x := 0;
      ghost var col := 0;
      while x < Width(img)
        invariant x == col * b
        invariant Progress(img, out, b, x, y)
      {
        out := PixelateBlock(img, out, b, x, y, col, row);
        x, col := x + b, col + 1;
      }
      ProgressNextBand(img, out, b, x, y);
      y, row := y + b, row + 1;
    }
    ProgressDone(img, out, b, y);
    return Success(out);
  }

  // ----------------------------------------------------------------------
  // Properties of the block loop's result

  /** A pixel of the result is the colour of the block covering it. */
  lemma PixelatedAt(img: Image, b: int, x: nat, y: nat)
    requires WellFormed(img) && b > 0 && x < Width(img) && y < |img|
    ensures Pixelated(img, b)[y][x] == BlockColor(img, b, x, y)
  {
  }

  /** Any pixel inside grid block (col, row) has that block's average as its colour. */
  lemma BlockColorOf(img: Image, b: int, x: nat, y: nat, col: nat, row: nat)
    requires WellFormed(img) && b > 0 && x < Width(img) && y < |img|
    requires col * b <= x < col * b + b && row * b <= y < row * b + b
    ensures col * b < Width(img) && row * b < |img|
    ensures BlockColor(img, b, x, y) == Average(Block(img, b, col * b, row * b))
  {
    OriginInBlock(x, b, col);
    OriginInBlock(y, b, row);
  }

  /** Every pixel of grid block (col, row), whose top-left corner is
      (x0, y0) = (col * b, row * b), clipped at the edges, receives the same
      colour: the average of exactly that block's input pixels. */
  lemma BlockUniform(img: Image, b: int, col: nat, row: nat, x0: nat, y0: nat)
    requires WellFormed(img) && b > 0 && x0 == col * b && y0 == row * b
    requires x0 < Width(img) && y0 < |img|
    ensures forall py, px ::
      (y0 <= py < Min(y0 + b, |img|) && x0 <= px < Min(x0 + b, Width(img))) ==>
        Pixelated(img, b)[py][px] == Average(Block(img, b, x0, y0))
  {
    forall py, px | y0 <= py < Min(y0 + b, |img|) && x0 <= px < Min(x0 + b, Width(img))
      ensures Pixelated(img, b)[py][px] == Average(Block(img, b, x0, y0))
    {
      PixelatedAt(img, b, px, py);
      BlockColorOf(img, b, px, py, col, row);
    }
  }

  /** With block size 1 the block at (x, y) is that pixel alone. */
  lemma SinglePixelBlock(img: Image, x: nat, y: nat)
    requires WellFormed(img) && x < Width(img) && y < |img|
    ensures Block(img, 1, x, y) == [img[y][x]]
  {
    assert Rows(img, x, x + 1, y, y) == [];
    assert img[y][x..x + 1] == [img[y][x]];
  }

  /** With block size 1 each pixel is its own block's average. */
  lemma UnitBlockAt(img: Image, x: nat, y: nat)
    requires WellFormed(img) && x < Width(img) && y < |img|
    ensures Pixelated(img, 1)[y][x] == img[y][x]
  {
    PixelatedAt(img, 1, x, y);
    BlockColorOf(img, 1, x, y, x, y);
    SinglePixelBlock(img, x, y);
    AverageOfUniform([img[y][x]], img[y][x]);
  }

  /** With block size 1 every block is a single pixel and the image comes
      back unchanged. */
  lemma UnitBlockIdentity(img: Image)
    requires WellFormed(img)
    ensures Pixelated(img, 1) == img
  {
    var p := Pixelated(img, 1);
    forall py | 0 <= py < |img|
      ensures p[py] == img[py]
    {
      forall px | 0 <= px < Width(img)
        ensures p[py][px] == img[py][px]
      {
        UnitBlockAt(img, px, py);
      }
    }
  }

  /** In the pixelated image, every pixel of the block covering (px, py)
      holds that block's colour. */
  lemma PixelatedBlockIsUniform(img: Image, b: int, px: nat, py: nat)
    requires WellFormed(img) && b > 0 && px < Width(img) && py < |img|
    ensures
      var p := Pixelated(img, b);
      forall y, x ::
        (Origin(py, b) <= y < Min(Origin(py, b) + b, |img|) && Origin(px, b) <= x < Min(Origin(px, b) + b, Width(img)))
        ==> p[y][x] == BlockColor(img, b, px, py)
  {
    var ox, oy := Origin(px, b), Origin(py, b);
    BlockColorOf(img, b, px, py, px / b, py / b);
    forall y, x | oy <= y < Min(oy + b, |img|) && ox <= x < Min(ox + b, Width(img))
      ensures Pixelated(img, b)[y][x] == BlockColor(img, b, px, py)
    {
      PixelatedAt(img, b, x, y);
      BlockColorOf(img, b, x, y, px / b, py / b);
    }
  }

  /** A block whose input pixels all equal v averages to v. */
  lemma AverageOfUniformBlock(img: Image, b: int, x0: nat, y0: nat, v: Pixel)
    requires WellFormed(img) && b > 0 && x0 < Width(img) && y0 < |img|
    requires forall y, x :: (y0 <= y < Min(y0 + b, |img|) && x0 <= x < Min(x0 + b, Width(img))) ==>
      img[y][x] == v
    ensures Average(Block(img, b, x0, y0)) == v
  {
    var x1, y1 := Min(x0 + b, Width(img)), Min(y0 + b, |img|);
    RowsAll(img, x0, x1, y0, y1, (c: Pixel) => c == v);
    var block := Block(img, b, x0, y0);
    assert forall i :: 0 <= i < |block| ==> block[i] in block;
    AverageOfUniform(block, v);
  }

  /** Re-averaging the block covering (px, py) of the pixelated image gives
      back the colour it already has there. */
  lemma RepixelatedAt(img: Image, b: int, px: nat, py: nat)
    requires WellFormed(img) && b > 0 && px < Width(img) && py < |img|
    ensures BlockColor(Pixelated(img, b), b, px, py) == Pixelated(img, b)[py][px]
  {
    PixelatedAt(img, b, px, py);
    PixelatedBlockIsUniform(img, b, px, py);
    AverageOfUniformBlock(Pixelated(img, b), b, Origin(px, b), Origin(py, b), BlockColor(img, b, px, py));
  }

  /** Idempotence: pixelating a pixelated image with the same block size
      changes nothing, since each block is already one colour. */
  lemma PixelateIdempotent(img: Image, b: int)
    requires WellFormed(img) && b > 0
    ensures Pixelated(Pixelated(img, b), b) == Pixelated(img, b)
  {
    var p := Pixelated(img, b);
    var q := Pixelated(p, b);
    forall py | 0 <= py < |img|
      ensures q[py] == p[py]
    {
      forall px | 0 <= px < Width(img)
        ensures q[py][px] == p[py][px]
      {
        PixelatedAt(p, b, px, py);
        RepixelatedAt(img, b, px, py);
      }
    }
  }

  /** Channel i of the block covering (px, py), when every pixel has it in
      [lo, hi] with lo >= 0, averages into [lo, hi]. */
  lemma BlockChannelInRange(img: Image, b: int, px: nat, py: nat, i: nat, lo: int, hi: int)
    requires WellFormed(img) && b > 0 && px < Width(img) && py < |img| && i < Channels(img)
    requires 0 <= lo
    requires forall y, x :: 0 <= y < |img| && 0 <= x < Width(img) ==> lo <= img[y][x][i] <= hi
    ensures lo <= BlockColor(img, b, px, py)[i] <= hi
  {
    var ox, oy := Origin(px, b), Origin(py, b);
    var block := Block(img, b, ox, oy);
    assert forall p :: p in block ==> lo <= p[i] <= hi by {
      var x1, y1 := Min(ox + b, Width(img)), Min(oy + b, |img|);
      RowsAll(img, ox, x1, oy, y1, (c: Pixel) => i < |c| && lo <= c[i] <= hi);
    }
    assert block[0] in block;
    AverageChannelInRange(block, i, lo, hi);
  }

  /** Channel values within [lo, hi], lo >= 0 (8-bit channels: [0, 255]),
      stay within [lo, hi] after pixelation. */
  lemma PixelatedInRange(img: Image, b: int, lo: int, hi: int)
    requires WellFormed(img) && b > 0 && 0 <= lo
    requires forall y, x, i :: 0 <= y < |img| && 0 <= x < Width(img) && 0 <= i < Channels(img) ==>
      lo <= img[y][x][i] <= hi
    ensures forall y, x, i :: 0 <= y < |img| && 0 <= x < Width(img) && 0 <= i < Channels(img) ==>
      lo <= Pixelated(img, b)[y][x][i] <= hi
  {
    forall y, x, i | 0 <= y < |img| && 0 <= x < Width(img) && 0 <= i < Channels(img)
      ensures lo <= Pixelated(img, b)[y][x][i] <= hi
    {
      BlockChannelInRange(img, b, x, y, i, lo, hi);
    }
  }

  /** A block, with top-left corner (x0, y0) = (col * b, row * b), whose
      input pixels all have the value v in channel i comes out with v in
      channel i everywhere. */
  lemma BlockChannelUniform(img: Image, b: int, col: nat, row: nat, x0: nat, y0: nat, i: nat, v: int)
    requires WellFormed(img) && b > 0 && x0 == col * b && y0 == row * b
    requires x0 < Width(img) && y0 < |img| && i < Channels(img)
    requires forall y, x :: (y0 <= y < Min(y0 + b, |img|) && x0 <= x < Min(x0 + b, Width(img))) ==>
      img[y][x][i] == v
    ensures forall y, x :: (y0 <= y < Min(y0 + b, |img|) && x0 <= x < Min(x0 + b, Width(img))) ==>
      Pixelated(img, b)[y][x][i] == v
  {
    var x1, y1 := Min(x0 + b, Width(img)), Min(y0 + b, |img|);
    RowsAll(img, x0, x1, y0, y1, (c: Pixel) => i < |c| && c[i] == v);
    var block := Block(img, b, x0, y0);
    assert block[0] in block;
    AverageChannelOfUniform(block, i, v);
    BlockUniform(img, b, col, row, x0, y0);
  }

  /** The worked example: in a 4 x 4 image whose top-left 2 x 2 block has 10
      in channel 0, block size 2 leaves 10 in channel 0 across that block. */
  lemma TopLeftBlockExample(img: Image)
    requires WellFormed(img) && |img| == 4 && Width(img) == 4 && Channels(img) >= 1
    requires forall y, x :: 0 <= y < 2 && 0 <= x < 2 ==> img[y][x][0] == 10
    ensures forall y, x :: 0 <= y < 2 && 0 <= x < 2 ==> Pixelated(img, 2)[y][x][0] == 10
  {
    BlockChannelUniform(img, 2, 0, 0, 0, 0, 0, 10);
  }

  // ----------------------------------------------------------------------
  // The live pixelate_image: guard and reduced size (lines 15-16, 25-26)

  /** max(1, size // blockSize): the side length of the reduced image. */
  function ReducedSize(size: nat, blockSize: int): (r: nat)
    requires blockSize > 0
    ensures 1 <= r
    ensures 1 <= size ==> r <= size
    ensures blockSize <= size ==> r * blockSize <= size < r * blockSize + blockSize
    ensures size < blockSize ==> r == 1
  {
    DivFloor(size, blockSize);
    MulMono(1, blockSize, size / blockSize);
    Max(1, size / blockSize)
  }

  /** Lines 15-16 and 25-26: reject a block size that is not positive before
      touching the image, else give the reduced width and height, each in
      [1, original] for a non-empty image. */
  function ReducedDimensions(width: nat, height: nat, blockSize: int): (r: Result<(nat, nat), PixelateError>)
    ensures r.Failure? <==> blockSize <= 0
    ensures r.Success? ==> 1 <= r.value.0 && 1 <= r.value.1
    ensures r.Success? && 1 <= width ==> r.value.0 <= width
    ensures r.Success? && 1 <= height ==> r.value.1 <= height
    ensures r.Success? && blockSize <= width ==> r.value.0 * blockSize <= width < r.value.0 * blockSize + blockSize
    ensures r.Success? && blockSize <= height ==> r.value.1 * blockSize <= height < r.value.1 * blockSize + blockSize
  {
    if blockSize <= 0 then Failure(NonPositiveBlockSize)
    else Success((ReducedSize(width, blockSize), ReducedSize(height, blockSize)))
  }
}
