/**
 Block grids: an image of columns x rows pixels of bpp bytes, cut into blocks of
 width x height pixels, the last of each row and column clipped to the image.
 */
module BlockGrid {
  import opened Bsq
  import opened Overlay

  function CeilDiv(a: nat, b: nat): nat
    requires b > 0
  {
    (a + b - 1) / b
  }

  /** What is left of block k of a row of blocks of the given size, once clipped to `extent`. */
  function Clip(extent: nat, size: nat, k: nat): nat {
    if k * size < extent then Min(size, extent - k * size) else 0
  }

  // ----- one axis -----

  /** A row of CeilDiv(extent, size) blocks starts a block at exactly the multiples of size inside the extent. */
  lemma CeilDivCounts(extent: nat, size: nat, k: nat)
    requires size > 0
    ensures k < CeilDiv(extent, size) <==> k * size < extent
  {
    var g := CeilDiv(extent, size);
    if k < g {
      MulMono(k + 1, g, size);
    } else {
      MulMono(g, k, size);
    }
  }

  /** Each position of the extent lies in exactly one clipped block. */
  lemma AxisPartition(extent: nat, size: nat, k: nat, p: nat)
    requires size > 0 && p < extent
    ensures k * size <= p < k * size + Clip(extent, size, k) <==> k == p / size
    ensures p / size < CeilDiv(extent, size)
  {
    assert p == p / size * size + p % size;
    CeilDivCounts(extent, size, p / size);
    if k * size <= p < k * size + Clip(extent, size, k) {
      DivUnique(k, size, p - k * size);
    }
  }

  /** Clipping pixels or clipping their bytes is the same. */
  lemma ScaleClip(extent: nat, size: nat, bpp: nat, k: nat)
    requires bpp > 0
    ensures Clip(extent * bpp, size * bpp, k) == Clip(extent, size, k) * bpp
  {
    Assoc(k, size, bpp);
    if k * size < extent {
      MulLess(k * size, extent, bpp);
      MulSub(extent, k * size, bpp);
      MinScales(size, extent - k * size, bpp);
    } else {
      MulMono(extent, k * size, bpp);
    }
  }

  lemma MulLess(a: nat, b: nat, c: nat)
    requires a < b && c > 0
    ensures a * c < b * c
  {}

  lemma MulSub(a: nat, b: nat, c: nat)
    requires b <= a
    ensures (a - b) * c == a * c - b * c
  {}

  lemma MinScales(a: nat, b: nat, c: nat)
    ensures Min(a * c, b * c) == Min(a, b) * c
  {
    MulMono(Min(a, b), Max(a, b), c);
  }

  lemma DivMono(a: nat, b: nat, d: nat)
    requires d > 0 && a <= b
    ensures a / d <= b / d
  {
    if b / d < a / d {
      MulMono(b / d + 1, a / d, d);
    }
  }

  lemma StartsAfter(p: nat, size: nat, k: nat)
    requires size > 0 && p / size < k
    ensures p < k * size
  {
    MulMono(p / size + 1, k, size);
  }

  /** A byte column belongs to the block its pixel belongs to. */
  lemma DivOfProduct(x: nat, size: nat, bpp: nat, k: nat)
    requires size > 0 && k < bpp
    ensures size * bpp > 0
    ensures (x * bpp + k) / (size * bpp) == x / size
  {
    MulMono(1, size, bpp);
    var q, r := x / size, x % size;
    assert x * bpp + k == q * (size * bpp) + (r * bpp + k);
    MulMono(r + 1, size, bpp);
    DivUnique(q, size * bpp, r * bpp + k);
  }

  lemma Assoc(a: nat, b: nat, c: nat)
    ensures a * (b * c) == a * b * c
  {}

  /** No block of `inner` reaches past the same block of `outer`. */
  predicate AxisFits(inner: nat, outer: nat, size: nat) {
    inner <= outer || (size > 0 && outer % size == 0)
  }

  lemma ClipFits(inner: nat, outer: nat, size: nat, k: nat)
    requires size > 0 && k * size < outer && AxisFits(inner, outer, size)
    ensures Clip(inner, size, k) <= Clip(outer, size, k)
  {
    if inner > outer {
      var q := outer / size;
      DivMod(outer, size);
      assert q * size == outer;
      if k >= q {
        MulMono(q, k, size);
        assert false;
      }
      MulMono(k + 1, q, size);
    }
  }

  /** Otherwise the last block does. */
  lemma ClipOvershoots(inner: nat, outer: nat, size: nat)
    requires size > 0 && !AxisFits(inner, outer, size)
    ensures var k := outer / size;
            k * size < outer && k * size < inner && Clip(inner, size, k) > Clip(outer, size, k)
  {
    DivMod(outer, size);
  }

  // ----- both axes -----

  datatype Grid = Grid(columns: nat, rows: nat, width: nat, height: nat, bpp: nat) {

    predicate Valid() { 0 < width && 0 < height && 0 < bpp }

    function GridRows(): nat requires Valid() { CeilDiv(rows, height) }

    function GridCols(): nat requires Valid() { CeilDiv(columns, width) }

    predicate InGrid(r: nat, c: nat) requires Valid() { r < GridRows() && c < GridCols() }

    /** Rows and columns of block (r, c), clipped to the image. */
    function BlockRows(r: nat): nat { Clip(rows, height, r) }

    function BlockCols(c: nat): nat { Clip(columns, width, c) }

    /** Bytes in a line of the image, and in a full line of a block. */
    function Line(): nat { columns * bpp }

    function Step(): nat { width * bpp }

    lemma StepPositive()
      requires Valid()
      ensures Step() > 0
    {
      MulMono(1, width, bpp);
    }

    function ImageFrame(): Frame { Frame(0, 0, rows, Line()) }

    function BlockFrame(r: nat, c: nat): Frame {
      Frame(r * height, c * Step(), BlockRows(r), BlockCols(c) * bpp)
    }

    /** The block that position (y, j) belongs to. */
    function Owner(y: nat, j: nat): (nat, nat)
      requires Valid()
    {
      StepPositive();
      (y / height, j / Step())
    }

    /** The blocks partition the image: each position lies in its owner alone, and the owner is in the grid. */
    lemma Partition(y: nat, j: nat, r: nat, c: nat)
      requires Valid() && ImageFrame().Contains(y, j)
      ensures BlockFrame(r, c).Contains(y, j) <==> (r, c) == Owner(y, j)
      ensures BlockFrame(r, c).Contains(y, j) ==> InGrid(r, c)
    {
      StepPositive();
      AxisPartition(rows, height, r, y);
      ScaleClip(columns, width, bpp, c);
      AxisPartition(Line(), Step(), c, j);
      if c == j / Step() {
        BlockStarts(c);
      }
    }

    /** Where a position lies in its owner. */
    lemma PlaceInOwner(y: nat, j: nat)
      requires Valid()
      ensures Step() > 0
      ensures y - BlockFrame(Owner(y, j).0, Owner(y, j).1).top == y % height
      ensures j - BlockFrame(Owner(y, j).0, Owner(y, j).1).left == j % Step()
    {
      StepPositive();
      DivMod(y, height);
      DivMod(j, Step());
    }

    lemma BlockStarts(c: nat)
      requires Valid() && c * Step() < Line()
      ensures c < GridCols()
    {
      Assoc(c, width, bpp);
      if c * width >= columns {
        MulMono(columns, c * width, bpp);
      }
      CeilDivCounts(columns, width, c);
    }

    /** A block of the grid lies in the image and is not empty. */
    lemma BlockInside(r: nat, c: nat)
      requires Valid() && InGrid(r, c)
      ensures r * height < rows && c * width < columns
      ensures 0 < BlockRows(r) && 0 < BlockCols(c) && 0 < BlockFrame(r, c).width
      ensures BlockFrame(r, c).left == c * width * bpp
      ensures BlockFrame(r, c).top + BlockFrame(r, c).height <= rows
      ensures BlockFrame(r, c).left + BlockFrame(r, c).width <= Line()
    {
      CeilDivCounts(columns, width, c);
      CeilDivCounts(rows, height, r);
      Assoc(c, width, bpp);
      MulMono(1, BlockCols(c), bpp);
      ScaleSum(c * width, BlockCols(c), bpp);
      MulMono(c * width + BlockCols(c), columns, bpp);
    }
  }
}
