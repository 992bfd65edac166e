/** Cutting a rectangular chip out of an image that is stored in blocks, some of which may be missing. */
module ChipImage {
  import opened Wrappers
  import Bsq

  function Max(a: int, b: int): int { if a < b then b else a }

  function Min(a: int, b: int): int { if b < a then b else a }

  /** The samples of one block: any number of rows and columns, and the sample of a band at a row and a column. */
  datatype Block = Block(rows: nat, cols: nat, sample: (nat, nat, nat) -> int)

  /** The image as the reader shows it; a block size of zero means one block as large as the image. */
  datatype Asset = Asset(bands: nat, rows: nat, cols: nat, blockHeight: nat, blockWidth: nat,
                         hasBlock: (nat, nat) -> bool, getBlock: (nat, nat) -> Block)
  {
    function Height(): nat { if blockHeight == 0 then rows else blockHeight }

    function Width(): nat { if blockWidth == 0 then cols else blockWidth }
  }

  // One axis: blocks of n samples over an image of `size`, a window [lo, hi).

  /** The block that sample t belongs to. */
  function Owner(n: nat, t: nat): nat
    requires n > 0
  {
    t / n
  }

  lemma OwnerIs(n: nat, t: nat, k: nat)
    requires n > 0
    ensures Owner(n, t) == k <==> k * n <= t < k * n + n
  {
    Bsq.DivMod(t, n);
    if k * n <= t < k * n + n {
      Bsq.DivUnique(k, n, t - k * n);
    }
  }

  /** Blocks of the stated size, or, where it is zero, one block for the whole axis. */
  lemma BlockOfSample(asset: Asset, y: nat, x: nat)
    requires y < asset.rows && x < asset.cols
    ensures asset.Height() > 0 && Owner(asset.Height(), y) == if asset.blockHeight == 0 then 0 else y / asset.blockHeight
    ensures asset.Width() > 0 && Owner(asset.Width(), x) == if asset.blockWidth == 0 then 0 else x / asset.blockWidth
  {}

  lemma OwnerMonotone(n: nat, s: nat, t: nat)
    requires n > 0 && s <= t
    ensures Owner(n, s) <= Owner(n, t)
  {
    OwnerIs(n, s, Owner(n, s));
    OwnerIs(n, t, Owner(n, t));
    assert Owner(n, s) * n < (Owner(n, t) + 1) * n;
    Cancel(Owner(n, s), Owner(n, t) + 1, n);
  }

  lemma Cancel(a: nat, b: nat, n: nat)
    requires a * n < b * n
    ensures a < b
  {
  }

  /** Which samples of a block go where in the window. */
  datatype Overlap = Overlap(srcStart: int, srcEnd: int, dstStart: int, dstEnd: int)

  function OverlapOf(start: nat, shape: nat, lo: int, hi: int): Overlap {
    var srcStart := Max(0, lo - start);
    var srcEnd := Min(shape, hi - start);
    var dstStart := Max(0, start - lo);
    Overlap(srcStart, srcEnd, dstStart, dstStart + (srcEnd - srcStart))
  }

  /** A block holds at least its part of the image and at most a whole block. */
  predicate Fits(n: nat, size: nat, k: nat, shape: nat) {
    Min(n, size - k * n) <= shape <= n
  }

  /** Position t of the window lies in the overlap exactly when it belongs to the block, and there it finds its own sample. */
  lemma OverlapIsExact(n: nat, size: nat, k: nat, shape: nat, lo: nat, hi: nat, t: nat)
    requires n > 0 && lo < hi <= size && Owner(n, lo) <= k <= Owner(n, hi - 1)
    requires Fits(n, size, k, shape) && t < hi - lo
    ensures var o := OverlapOf(k * n, shape, lo, hi);
            && 0 <= o.srcStart <= o.srcEnd <= shape && 0 <= o.dstStart <= o.dstEnd <= hi - lo
            && (o.dstStart <= t < o.dstEnd <==> Owner(n, lo + t) == k)
            && (o.dstStart <= t < o.dstEnd ==> o.srcStart + (t - o.dstStart) == lo + t - k * n)
  {
    OwnerIs(n, lo + t, k);
    WindowMeets(n, k, lo, hi);
  }

  lemma WindowMeets(n: nat, k: nat, lo: nat, hi: nat)
    requires n > 0 && lo < hi && Owner(n, lo) <= k <= Owner(n, hi - 1)
    ensures k * n < hi && lo < k * n + n
  {
    OwnerIs(n, lo, Owner(n, lo));
    OwnerIs(n, hi - 1, Owner(n, hi - 1));
    Bsq.MulMono(Owner(n, lo), k, n);
    Bsq.MulMono(k, Owner(n, hi - 1), n);
  }

  // The image.

  /** Every block that is there shows its part of the image. */
  ghost predicate Shows(asset: Asset, image: (nat, nat, nat) -> int)
  {
    forall r: nat, c: nat | asset.hasBlock(r, c) :: BlockShows(asset, image, r, c)
  }

  ghost predicate BlockShows(asset: Asset, image: (nat, nat, nat) -> int, r: nat, c: nat) {
    && (r * asset.Height() < asset.rows ==> Fits(asset.Height(), asset.rows, r, asset.getBlock(r, c).rows))
    && (c * asset.Width() < asset.cols ==> Fits(asset.Width(), asset.cols, c, asset.getBlock(r, c).cols))
    && forall b: nat, y: nat, x: nat | b < asset.bands && y < asset.getBlock(r, c).rows && x < asset.getBlock(r, c).cols
         && r * asset.Height() + y < asset.rows && c * asset.Width() + x < asset.cols ::
         asset.getBlock(r, c).sample(b, y, x) == image(b, r * asset.Height() + y, c * asset.Width() + x)
  }

  /** The chip's window in the image. */
  datatype Window = Window(top: nat, left: nat, bottom: nat, right: nat)

  /** What chip sample (b, y, x) should be. */
  ghost function Expected(asset: Asset, image: (nat, nat, nat) -> int, w: Window, b: nat, y: nat, x: nat): int
    requires asset.Height() > 0 && asset.Width() > 0
  {
    if asset.hasBlock(Owner(asset.Height(), w.top + y), Owner(asset.Width(), w.left + x))
    then image(b, w.top + y, w.left + x)
    else 0
  }

  /** The sample belongs to a block visited before block (r, c) in row order. */
  predicate Visited(asset: Asset, w: Window, r: nat, c: nat, y: nat, x: nat)
    requires asset.Height() > 0 && asset.Width() > 0
  {
    var row, col := Owner(asset.Height(), w.top + y), Owner(asset.Width(), w.left + x);
    row < r || (row == r && col < c)
  }

  ghost predicate SampleDone(asset: Asset, image: (nat, nat, nat) -> int, w: Window, chip: array3<int>,
                             r: nat, c: nat, b: nat, y: nat, x: nat)
    requires asset.Height() > 0 && asset.Width() > 0
    requires b < chip.Length0 && y < chip.Length1 && x < chip.Length2
    reads chip
  {
    chip[b, y, x] == if Visited(asset, w, r, c, y, x) then Expected(asset, image, w, b, y, x) else 0
  }

  /** The blocks before (r, c) have been copied. */
  ghost predicate Progress(asset: Asset, image: (nat, nat, nat) -> int, w: Window, chip: array3<int>, r: nat, c: nat)
    requires asset.Height() > 0 && asset.Width() > 0
    reads chip
  {
    forall b: nat, y: nat, x: nat | b < chip.Length0 && y < chip.Length1 && x < chip.Length2 ::
      SampleDone(asset, image, w, chip, r, c, b, y, x)
  }

  ghost predicate Sized(asset: Asset, w: Window, chip: array3<int>) {
    && w.top < w.bottom <= asset.rows && w.left < w.right <= asset.cols
    && chip.Length0 == asset.bands && chip.Length1 == w.bottom - w.top && chip.Length2 == w.right - w.left
  }

  /** Copies the part of a block that falls into the window. */
  method CopyOverlap(block: Block, rows: Overlap, cols: Overlap, chip: array3<int>)
    requires 0 <= rows.srcStart <= rows.srcEnd && 0 <= cols.srcStart <= cols.srcEnd
    requires rows.dstEnd - rows.dstStart == rows.srcEnd - rows.srcStart
    requires cols.dstEnd - cols.dstStart == cols.srcEnd - cols.srcStart
    requires 0 <= rows.dstStart <= rows.dstEnd <= chip.Length1 && 0 <= cols.dstStart <= cols.dstEnd <= chip.Length2
    modifies chip
    ensures forall b: nat, y: nat, x: nat | b < chip.Length0 && y < chip.Length1 && x < chip.Length2 ::
              chip[b, y, x] == if rows.dstStart <= y < rows.dstEnd && cols.dstStart <= x < cols.dstEnd
                               then block.sample(b, rows.srcStart + (y - rows.dstStart), cols.srcStart + (x - cols.dstStart))
                               else old(chip[b, y, x])
  {
    forall b, y, x | 0 <= b < chip.Length0 && rows.dstStart <= y < rows.dstEnd && cols.dstStart <= x < cols.dstEnd {
      chip[b, y, x] := block.sample(b, rows.srcStart + (y - rows.dstStart), cols.srcStart + (x - cols.dstStart));
    }
  }

  // Steps of the loops.

  ghost predicate InWindowBlocks(asset: Asset, w: Window, r: nat, c: nat)
    requires asset.Height() > 0 && asset.Width() > 0 && w.top < w.bottom && w.left < w.right
  {
    && Owner(asset.Height(), w.top) <= r <= Owner(asset.Height(), w.bottom - 1)
    && Owner(asset.Width(), w.left) <= c <= Owner(asset.Width(), w.right - 1)
  }

  /** What one sample of the chip is after the block has been copied in. */
  lemma CopiedSample(asset: Asset, image: (nat, nat, nat) -> int, w: Window, r: nat, c: nat, b: nat, y: nat, x: nat)
    requires asset.Height() > 0 && asset.Width() > 0
    requires w.top < w.bottom <= asset.rows && w.left < w.right <= asset.cols
    requires InWindowBlocks(asset, w, r, c) && asset.hasBlock(r, c) && BlockShows(asset, image, r, c)
    requires b < asset.bands && y < w.bottom - w.top && x < w.right - w.left
    ensures var block := asset.getBlock(r, c);
            var rows := OverlapOf(r * asset.Height(), block.rows, w.top, w.bottom);
            var cols := OverlapOf(c * asset.Width(), block.cols, w.left, w.right);
            var here := rows.dstStart <= y < rows.dstEnd && cols.dstStart <= x < cols.dstEnd;
            && (here <==> Owner(asset.Height(), w.top + y) == r && Owner(asset.Width(), w.left + x) == c)
            && (here ==> rows.srcStart >= 0 && cols.srcStart >= 0
                         && block.sample(b, rows.srcStart + (y - rows.dstStart), cols.srcStart + (x - cols.dstStart))
                            == Expected(asset, image, w, b, y, x))
  {
    var block := asset.getBlock(r, c);
    WindowMeets(asset.Height(), r, w.top, w.bottom);
    WindowMeets(asset.Width(), c, w.left, w.right);
    OverlapIsExact(asset.Height(), asset.rows, r, block.rows, w.top, w.bottom, y);
    OverlapIsExact(asset.Width(), asset.cols, c, block.cols, w.left, w.right, x);
  }

  lemma SampleStep(asset: Asset, image: (nat, nat, nat) -> int, w: Window, r: nat, c: nat, b: nat, y: nat, x: nat,
                   before: int, after: int)
    requires asset.Height() > 0 && asset.Width() > 0
    requires w.top < w.bottom <= asset.rows && w.left < w.right <= asset.cols
    requires InWindowBlocks(asset, w, r, c) && asset.hasBlock(r, c) && BlockShows(asset, image, r, c)
    requires b < asset.bands && y < w.bottom - w.top && x < w.right - w.left
    requires before == if Visited(asset, w, r, c, y, x) then Expected(asset, image, w, b, y, x) else 0
    requires var block := asset.getBlock(r, c);
             var rows := OverlapOf(r * asset.Height(), block.rows, w.top, w.bottom);
             var cols := OverlapOf(c * asset.Width(), block.cols, w.left, w.right);
             0 <= rows.srcStart && 0 <= cols.srcStart &&
             after == if rows.dstStart <= y < rows.dstEnd && cols.dstStart <= x < cols.dstEnd
                      then block.sample(b, rows.srcStart + (y - rows.dstStart), cols.srcStart + (x - cols.dstStart))
                      else before
    ensures after == if Visited(asset, w, r, c + 1, y, x) then Expected(asset, image, w, b, y, x) else 0
  {
    CopiedSample(asset, image, w, r, c, b, y, x);
  }

  /** One turn of the inner loop: where the block meets the window its samples are copied. */
  method CopyBlock(asset: Asset, block: Block, row: nat, col: nat, w: Window, output: array3<int>,
                   ghost image: (nat, nat, nat) -> int)
    requires asset.Height() > 0 && asset.Width() > 0
    requires Sized(asset, w, output) && InWindowBlocks(asset, w, row, col)
    requires asset.hasBlock(row, col) && block == asset.getBlock(row, col) && BlockShows(asset, image, row, col)
    requires Progress(asset, image, w, output, row, col)
    modifies output
    ensures Progress(asset, image, w, output, row, col + 1)
  {
    var blockXStart, blockYStart := col * asset.Width(), row * asset.Height();
    var rows := OverlapOf(blockYStart, block.rows, w.top, w.bottom);
    var cols := OverlapOf(blockXStart, block.cols, w.left, w.right);
    OverlapsFit(asset, image, w, row, col);
    ghost var next := col + 1;
    CopyOverlap(block, rows, cols, output);
    forall b: nat, y: nat, x: nat | b < output.Length0 && y < output.Length1 && x < output.Length2
      ensures SampleDone(asset, image, w, output, row, next, b, y, x)
    {
      assert old(SampleDone(asset, image, w, output, row, col, b, y, x));
      SampleStep(asset, image, w, row, col, b, y, x, old(output[b, y, x]), output[b, y, x]);
    }
  }

  lemma OverlapsFit(asset: Asset, image: (nat, nat, nat) -> int, w: Window, r: nat, c: nat)
    requires asset.Height() > 0 && asset.Width() > 0
    requires w.top < w.bottom <= asset.rows && w.left < w.right <= asset.cols
    requires InWindowBlocks(asset, w, r, c) && asset.hasBlock(r, c) && BlockShows(asset, image, r, c)
    ensures var rows := OverlapOf(r * asset.Height(), asset.getBlock(r, c).rows, w.top, w.bottom);
            0 <= rows.srcStart <= rows.srcEnd && 0 <= rows.dstStart <= rows.dstEnd <= w.bottom - w.top
    ensures var cols := OverlapOf(c * asset.Width(), asset.getBlock(r, c).cols, w.left, w.right);
            0 <= cols.srcStart <= cols.srcEnd && 0 <= cols.dstStart <= cols.dstEnd <= w.right - w.left
  {
    WindowMeets(asset.Height(), r, w.top, w.bottom);
    WindowMeets(asset.Width(), c, w.left, w.right);
    OverlapIsExact(asset.Height(), asset.rows, r, asset.getBlock(r, c).rows, w.top, w.bottom, 0);
    OverlapIsExact(asset.Width(), asset.cols, c, asset.getBlock(r, c).cols, w.left, w.right, 0);
  }

  lemma SampleOwner(asset: Asset, w: Window, y: nat, x: nat)
    requires asset.Height() > 0 && asset.Width() > 0 && w.top < w.bottom && w.left < w.right
    requires y < w.bottom - w.top && x < w.right - w.left
    ensures InWindowBlocks(asset, w, Owner(asset.Height(), w.top + y), Owner(asset.Width(), w.left + x))
  {
    OwnerMonotone(asset.Height(), w.top, w.top + y);
    OwnerMonotone(asset.Height(), w.top + y, w.bottom - 1);
    OwnerMonotone(asset.Width(), w.left, w.left + x);
    OwnerMonotone(asset.Width(), w.left + x, w.right - 1);
  }

  lemma StartsEmpty(asset: Asset, image: (nat, nat, nat) -> int, w: Window, chip: array3<int>)
    requires asset.Height() > 0 && asset.Width() > 0 && Sized(asset, w, chip)
    requires forall b: nat, y: nat, x: nat | b < chip.Length0 && y < chip.Length1 && x < chip.Length2 :: chip[b, y, x] == 0
    ensures Progress(asset, image, w, chip, Owner(asset.Height(), w.top), Owner(asset.Width(), w.left))
  {
    forall b: nat, y: nat, x: nat | b < chip.Length0 && y < chip.Length1 && x < chip.Length2
      ensures SampleDone(asset, image, w, chip, Owner(asset.Height(), w.top), Owner(asset.Width(), w.left), b, y, x)
    {
      SampleOwner(asset, w, y, x);
    }
  }

  /** The blocks of a row past the window's last one hold nothing of the window. */
  lemma RowDone(asset: Asset, image: (nat, nat, nat) -> int, w: Window, chip: array3<int>, r: nat)
    requires asset.Height() > 0 && asset.Width() > 0 && Sized(asset, w, chip)
    requires Progress(asset, image, w, chip, r, Owner(asset.Width(), w.right - 1) + 1)
    ensures Progress(asset, image, w, chip, r + 1, Owner(asset.Width(), w.left))
  {
    var next, first := r + 1, Owner(asset.Width(), w.left);
    forall b: nat, y: nat, x: nat | b < chip.Length0 && y < chip.Length1 && x < chip.Length2
      ensures SampleDone(asset, image, w, chip, next, first, b, y, x)
    {
      assert SampleDone(asset, image, w, chip, r, Owner(asset.Width(), w.right - 1) + 1, b, y, x);
      SampleOwner(asset, w, y, x);
    }
  }

  /** A missing block leaves its samples zero. */
  lemma SkipBlock(asset: Asset, image: (nat, nat, nat) -> int, w: Window, chip: array3<int>, r: nat, c: nat)
    requires asset.Height() > 0 && asset.Width() > 0 && !asset.hasBlock(r, c)
    requires Progress(asset, image, w, chip, r, c)
    ensures Progress(asset, image, w, chip, r, c + 1)
  {
    var next := c + 1;
    forall b: nat, y: nat, x: nat | b < chip.Length0 && y < chip.Length1 && x < chip.Length2
      ensures SampleDone(asset, image, w, chip, r, next, b, y, x)
    {
      assert SampleDone(asset, image, w, chip, r, c, b, y, x);
    }
  }

  ghost predicate SampleRight(asset: Asset, image: (nat, nat, nat) -> int, w: Window, chip: array3<int>, b: nat, y: nat, x: nat)
    requires asset.Height() > 0 && asset.Width() > 0
    requires b < chip.Length0 && y < chip.Length1 && x < chip.Length2
    reads chip
  {
    chip[b, y, x] == Expected(asset, image, w, b, y, x)
  }

  /** The array has the shape of the window and every sample is as expected. */
  ghost predicate IsChip(asset: Asset, image: (nat, nat, nat) -> int, w: Window, chip: array3<int>)
    reads chip
  {
    && asset.Height() > 0 && asset.Width() > 0 && Sized(asset, w, chip)
    && forall b: nat, y: nat, x: nat | b < chip.Length0 && y < chip.Length1 && x < chip.Length2 ::
         SampleRight(asset, image, w, chip, b, y, x)
  }

  lemma AllDone(asset: Asset, image: (nat, nat, nat) -> int, w: Window, chip: array3<int>)
    requires asset.Height() > 0 && asset.Width() > 0 && Sized(asset, w, chip)
    requires Progress(asset, image, w, chip, Owner(asset.Height(), w.bottom - 1) + 1, Owner(asset.Width(), w.left))
    ensures IsChip(asset, image, w, chip)
  {
    forall b: nat, y: nat, x: nat | b < chip.Length0 && y < chip.Length1 && x < chip.Length2
      ensures SampleRight(asset, image, w, chip, b, y, x)
    {
      assert SampleDone(asset, image, w, chip, Owner(asset.Height(), w.bottom - 1) + 1, Owner(asset.Width(), w.left), b, y, x);
      SampleOwner(asset, w, y, x);
    }
  }

  /** Reads the blocks that meet the window one after the other. */
  method AssembleBlocks(asset: Asset, w: Window, output: array3<int>, ghost image: (nat, nat, nat) -> int)
    requires asset.Height() > 0 && asset.Width() > 0 && Sized(asset, w, output) && Shows(asset, image)
    requires Progress(asset, image, w, output, Owner(asset.Height(), w.top), Owner(asset.Width(), w.left))
    modifies output
    ensures Progress(asset, image, w, output, Owner(asset.Height(), w.bottom - 1) + 1, Owner(asset.Width(), w.left))
  {
    var blockWidth, blockHeight := asset.Width(), asset.Height();
    var colStart, colEnd := w.left / blockWidth, (w.right - 1) / blockWidth + 1;
    var rowStart, rowEnd := w.top / blockHeight, (w.bottom - 1) / blockHeight + 1;
    OwnerMonotone(blockHeight, w.top, w.bottom - 1);
    OwnerMonotone(blockWidth, w.left, w.right - 1);
    for row := rowStart to rowEnd
      invariant Progress(asset, image, w, output, row, colStart)
    {
      for col := colStart to colEnd
        invariant Progress(asset, image, w, output, row, col)
      {
        if asset.hasBlock(row, col) {
          assert BlockShows(asset, image, row, col);
          CopyBlock(asset, asset.getBlock(row, col), row, col, w, output, image);
        } else {
          SkipBlock(asset, image, w, output, row, col);
        }
      }
      RowDone(asset, image, w, output, row);
    }
  }

  /** The chip is the clamped window of the image sample for sample, with zeros exactly where the covering block is missing. */
  method ExtractRegion(asset: Asset, xMin: int, yMin: int, xMax: int, yMax: int, ghost image: (nat, nat, nat) -> int)
    returns (chip: Option<array3<int>>)
    requires Shows(asset, image)
    ensures var top, left, bottom, right := Max(0, yMin), Max(0, xMin), Min(asset.rows, yMax), Min(asset.cols, xMax);
            && (chip.None? <==> right <= left || bottom <= top)
            && (chip.Some? ==> fresh(chip.value) && IsChip(asset, image, Window(top, left, bottom, right), chip.value))
  {
    var left, top, right, bottom := Max(0, xMin), Max(0, yMin), Min(asset.cols, xMax), Min(asset.rows, yMax);
    var chipWidth, chipHeight := right - left, bottom - top;
    if chipWidth <= 0 || chipHeight <= 0 {
      return None;
    }
    var w := Window(top, left, bottom, right);
    var output := new int[asset.bands, chipHeight, chipWidth]((b, y, x) => 0);
    StartsEmpty(asset, image, w, output);
    AssembleBlocks(asset, w, output, image);
    AllDone(asset, image, w, output);
    chip := Some(output);
  }
}
