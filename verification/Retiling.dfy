/**
 What retiling promises: the tiles partition the image, each tile holds exactly the
 image's pixels at their absolute positions, and neither the order in which source
 blocks arrive nor the padding of edge blocks matters.
 */
module Retiling {
  import opened Wrappers
  import opened Bsq
  import opened Overlay
  import opened BlockGrid
  import opened ImageProvider
  import opened TileAssembler

  // ----- exactness -----

  /** Pixel for pixel, `data` (rows x cols) holds the image from pixel (top, left) on, for height x width pixels. */
  ghost predicate HoldsWindow(p: ImageProvider, img: seq<byte>, data: seq<byte>, rows: nat, cols: nat,
                              top: nat, left: nat, height: nat, width: nat)
  {
    forall b: nat, y: nat, x: nat | b < p.bands && y < height && x < width ::
      Pixel(data, rows, cols, p.Bpp(), b, y, x) == Pixel(img, p.rows, p.columns, p.Bpp(), b, top + y, left + x)
  }

  /** Byte columns and pixels say the same. */
  lemma BytesToPixels(p: ImageProvider, img: seq<byte>, data: seq<byte>, rows: nat, cols: nat,
                      top: nat, left: nat, height: nat, width: nat)
    requires forall b: nat, y: nat, j: nat | b < p.bands && y < height && j < width * p.Bpp() ::
               At(data, rows, cols * p.Bpp(), b, y, j) == At(img, p.rows, p.columns * p.Bpp(), b, top + y, left * p.Bpp() + j)
    ensures HoldsWindow(p, img, data, rows, cols, top, left, height, width)
  {
    var bpp := p.Bpp();
    forall b: nat, y: nat, x: nat | b < p.bands && y < height && x < width
      ensures Pixel(data, rows, cols, bpp, b, y, x) == Pixel(img, p.rows, p.columns, bpp, b, top + y, left + x)
    {
      forall k: nat | k < bpp
        ensures Pixel(data, rows, cols, bpp, b, y, x)[k] == Pixel(img, p.rows, p.columns, bpp, b, top + y, left + x)[k]
      {
        var j := x * bpp + k;
        PixelInside(x, width, bpp, k);
        ScaleSum(left, x, bpp);
        assert At(data, rows, cols * bpp, b, y, j) == At(img, p.rows, p.columns * bpp, b, top + y, left * bpp + j);
      }
    }
  }

  lemma PixelInside(x: nat, width: nat, bpp: nat, k: nat)
    requires x < width && k < bpp
    ensures x * bpp + k < width * bpp
  {
    MulMono(x + 1, width, bpp);
  }

  /** Every position of a tile holds the image's byte, whichever path produced it. */
  lemma TileHolds(a: TileAssembler, r: nat, c: nat, tile: Block, b: nat, y: nat, j: nat)
    requires a.Ready() && a.source.Conforms()
    requires a.InGrid(r, c) && a.Tile(r, c) == Ok(tile)
    requires b < a.source.bands && y < a.Tiles().BlockRows(r) && j < a.Tiles().BlockFrame(r, c).width
    ensures a.Holds(tile.data, a.Tiles().BlockFrame(r, c).(height := tile.rows, width := tile.cols * a.source.Bpp()), b, y, j)
  {
    var p, f := a.source, a.Tiles().BlockFrame(r, c);
    if a.GridsMatch() {
      a.Tiles().BlockInside(r, c);
      a.Tiles().Partition(f.top + y, f.left + j, r, c);
      a.OwnBlock(r, c, tile, b, f.top + y, f.left + j);
      assert a.BlockFrame(r, c, tile) == f.(height := tile.rows, width := tile.cols * p.Bpp());
    } else {
      RenderAt(p.bands, f.height, f.width, (b: nat, y: nat, j: nat) => p.Sample(b, f.top + y, f.left + j), b, y, j);
    }
  }

  /** The tile shows the image's window at its place, in the clipped shape unless the source pads its own block. */
  ghost predicate TileShows(a: TileAssembler, img: seq<byte>, r: nat, c: nat, tile: Block)
    requires a.Ready()
  {
    && tile.bands == a.source.bands && |tile.data| == tile.bands * tile.rows * (tile.cols * a.source.Bpp())
    && HoldsWindow(a.source, img, tile.data, tile.rows, tile.cols,
                   r * a.tileHeight, c * a.tileWidth, a.Tiles().BlockRows(r), a.Tiles().BlockCols(c))
    && a.Tiles().BlockRows(r) <= tile.rows && a.Tiles().BlockCols(c) <= tile.cols
    && (!a.GridsMatch() || a.source.Clips() ==> tile.rows == a.Tiles().BlockRows(r) && tile.cols == a.Tiles().BlockCols(c))
  }

  /**
   Retiling is exact, on the direct and on the assembled path: a request in the grid gives the
   image's window when every source block that the tile needs is served, and only then; otherwise
   it fails as the first of those blocks in reading order does.
   */
  lemma RetilingIsExact(a: TileAssembler, img: seq<byte>, r: nat, c: nat)
    requires a.Ready() && a.source.Conforms() && a.source.Depicts(img) && a.InGrid(r, c)
    ensures match a.Tile(r, c)
            case Ok(tile) => a.AllServed(r, c) && TileShows(a, img, r, c, tile)
            case Err(e) => !a.AllServed(r, c) && exists row: nat, col: nat :: a.FirstFailing(r, c, row, col, e)
  {
    a.TileSucceeds(r, c);
    match a.Tile(r, c)
    case Ok(tile) => TileIsWindow(a, img, r, c, tile);
    case Err(_) =>
  }

  lemma TileIsWindow(a: TileAssembler, img: seq<byte>, r: nat, c: nat, tile: Block)
    requires a.Ready() && a.source.Conforms() && a.source.Depicts(img)
    requires a.InGrid(r, c) && a.Tile(r, c) == Ok(tile)
    ensures TileShows(a, img, r, c, tile)
  {
    var p, f := a.source, a.Tiles().BlockFrame(r, c);
    a.Tiles().BlockInside(r, c);
    forall b: nat, y: nat, j: nat | b < p.bands && y < f.height && j < f.width
      ensures At(tile.data, tile.rows, tile.cols * p.Bpp(), b, y, j) == At(img, p.rows, p.Blocks().Line(), b, f.top + y, f.left + j)
    {
      TileByte(a, img, r, c, tile, b, y, j);
    }
    BytesToPixels(p, img, tile.data, tile.rows, tile.cols, f.top, c * a.tileWidth, f.height, a.Tiles().BlockCols(c));
  }

  lemma TileByte(a: TileAssembler, img: seq<byte>, r: nat, c: nat, tile: Block, b: nat, y: nat, j: nat)
    requires a.Ready() && a.source.Conforms() && a.source.Depicts(img)
    requires a.InGrid(r, c) && a.Tile(r, c) == Ok(tile)
    requires b < a.source.bands && y < a.Tiles().BlockRows(r) && j < a.Tiles().BlockFrame(r, c).width
    ensures var f := a.Tiles().BlockFrame(r, c);
            At(tile.data, tile.rows, tile.cols * a.source.Bpp(), b, y, j)
            == At(img, a.source.rows, a.source.Blocks().Line(), b, f.top + y, f.left + j)
  {
    var f := a.Tiles().BlockFrame(r, c);
    a.Tiles().BlockInside(r, c);
    TileHolds(a, r, c, tile, b, y, j);
    assert a.source.Sample(b, f.top + y, f.left + j) == At(img, a.source.rows, a.source.Blocks().Line(), b, f.top + y, f.left + j);
  }

  /**
   Reassembling the whole image gives it back exactly when the answer has the image's shape, and
   it can only have another one if the source is a single block, which it then pads.
   */
  lemma ReassemblyIsWhole(p: ImageProvider, img: seq<byte>, tile: Block)
    requires p.columns > 0 && p.rows > 0 && p.WellFormed() && p.Conforms() && p.Depicts(img)
    requires TileAssembler(p, p.columns, p.rows).Tile(0, 0) == Ok(tile)
    ensures tile.rows == p.rows && tile.cols == p.columns ==> tile.data == img
    ensures p.bands > 0 && tile.data == img ==> tile.rows == p.rows && tile.cols == p.columns
    ensures p.blockWidth != p.columns || p.blockHeight != p.rows ==> tile.rows == p.rows && tile.cols == p.columns
  {
    var a := TileAssembler(p, p.columns, p.rows);
    var f := a.Tiles().BlockFrame(0, 0);
    CeilDivCounts(p.rows, p.rows, 0);
    CeilDivCounts(p.columns, p.columns, 0);
    assert f == p.Blocks().ImageFrame();
    TileIsWindow(a, img, 0, 0, tile);
    if tile.rows == p.rows && tile.cols == p.columns {
      WholeTileIsImage(a, img, tile);
    } else if p.bands > 0 {
      LargerShapeIsLonger(p.bands, p.rows, p.columns, tile.rows, tile.cols, p.Bpp());
    }
  }

  lemma WholeTileIsImage(a: TileAssembler, img: seq<byte>, tile: Block)
    requires a.Ready() && a.source.Conforms() && a.source.Depicts(img) && a.InGrid(0, 0) && a.Tile(0, 0) == Ok(tile)
    requires a.Tiles().BlockFrame(0, 0) == a.source.Blocks().ImageFrame()
    requires tile.rows == a.source.rows && tile.cols == a.source.columns && |tile.data| == a.source.bands * tile.rows * (tile.cols * a.source.Bpp())
    ensures tile.data == img
  {
    var p, f := a.source, a.Tiles().BlockFrame(0, 0);
    forall b: nat, y: nat, j: nat | b < p.bands && y < f.height && j < f.width
      ensures a.Holds(img, f, b, y, j) && a.Holds(tile.data, f, b, y, j)
    {
      assert p.Sample(b, y, j) == At(img, p.rows, p.Blocks().Line(), b, y, j);
      TileHolds(a, 0, 0, tile, b, y, j);
    }
    a.HoldsEverywhere(img, f);
    a.HoldsEverywhere(tile.data, f);
  }

  /** A buffer of a larger shape is longer. */
  lemma LargerShapeIsLonger(bands: nat, rows: nat, cols: nat, rows': nat, cols': nat, bpp: nat)
    requires bands > 0 && bpp > 0 && 0 < rows <= rows' && 0 < cols <= cols' && (rows < rows' || cols < cols')
    ensures bands * rows * (cols * bpp) < bands * rows' * (cols' * bpp)
  {
    var a, a', b, b' := bands * rows, bands * rows', cols * bpp, cols' * bpp;
    MulMono(rows, rows', bands);
    MulMono(cols, cols', bpp);
    MulMono(1, rows, bands);
    if rows < rows' {
      MulLess(rows, rows', bands);
      MulLess(0, cols, bpp);
      MulLess(a, a', b);
      MulMono(b, b', a');
    } else {
      MulLess(cols, cols', bpp);
      MulLess(b, b', a);
    }
  }

  // ----- exact cover -----

  /** Block (row, col) covers its part of the image and does not reach past its nominal size. */
  ghost predicate Nominal(a: TileAssembler, row: nat, col: nat) {
    match a.source.getBlock(row, col)
    case Ok(blk) => a.source.Covers(row, col, blk) && blk.rows <= a.source.blockHeight && blk.cols <= a.source.blockWidth
    case Err(_) => false
  }

  /** Clipped or padded up to its nominal size, a block writes exactly the positions of the image that belong to it. */
  lemma ExactCover(a: TileAssembler, row: nat, col: nat, y: nat, j: nat)
    requires a.Ready() && Nominal(a, row, col) && a.source.Blocks().ImageFrame().Contains(y, j)
    ensures a.BlockFrame(row, col, a.source.getBlock(row, col).value).Contains(y, j)
            <==> (row, col) == a.source.Blocks().Owner(y, j)
  {
    var p, blk := a.source, a.source.getBlock(row, col).value;
    p.Blocks().StepPositive();
    if (row, col) == p.Blocks().Owner(y, j) {
      a.OwnBlock(row, col, blk, 0, y, j);
    } else if a.BlockFrame(row, col, blk).Contains(y, j) {
      MulMono(blk.cols, p.blockWidth, p.Bpp());
      DivUnique(row, p.blockHeight, y - row * p.blockHeight);
      DivUnique(col, p.Blocks().Step(), j - col * p.Blocks().Step());
    }
  }

  /** A buffer once the listed blocks are laid over it, first to last. */
  ghost function LayAll(a: TileAssembler, f: Frame, order: seq<(nat, nat)>, output: seq<byte>): seq<byte>
    requires forall k | k in order :: Nominal(a, k.0, k.1)
  {
    if order == [] then output
    else
      var last := order[|order| - 1];
      assert Nominal(a, last.0, last.1);
      a.Layer(f, last.0, last.1, a.source.getBlock(last.0, last.1).value).Apply(LayAll(a, f, order[..|order| - 1], output))
  }

  lemma {:induction false} LaidAt(a: TileAssembler, f: Frame, order: seq<(nat, nat)>, output: seq<byte>, b: nat, y: nat, j: nat)
    requires a.Ready() && forall k | k in order :: Nominal(a, k.0, k.1)
    requires f.top + f.height <= a.source.rows && f.left + f.width <= a.source.Blocks().Line()
    requires b < a.source.bands && y < f.height && j < f.width
    requires a.source.Blocks().Owner(f.top + y, f.left + j) in order
    ensures a.Holds(LayAll(a, f, order, output), f, b, y, j)
  {
    var own, last := a.source.Blocks().Owner(f.top + y, f.left + j), order[|order| - 1];
    var rest, blk := order[..|order| - 1], a.source.getBlock(last.0, last.1).value;
    a.Layer(f, last.0, last.1, blk).ApplyAt(LayAll(a, f, rest, output), b, y, j);
    ExactCover(a, last.0, last.1, f.top + y, f.left + j);
    if last == own {
      a.OwnBlock(last.0, last.1, blk, b, f.top + y, f.left + j);
    } else {
      LaidAt(a, f, rest, output, b, y, j);
    }
  }

  /**
   Any order of the source blocks, and any initial contents, give the same tile, as long as
   every block that meets the tile is laid over it.
   */
  lemma OrderIrrelevant(a: TileAssembler, r: nat, c: nat, order: seq<(nat, nat)>, output: seq<byte>)
    requires a.Ready() && a.InGrid(r, c)
    requires forall k | k in order :: Nominal(a, k.0, k.1)
    requires forall row: nat, col: nat | a.FirstRow(r) <= row < a.EndRow(r) && a.FirstCol(c) <= col < a.EndCol(c) :: (row, col) in order
    requires |output| == a.source.bands * a.Tiles().BlockFrame(r, c).height * a.Tiles().BlockFrame(r, c).width
    ensures LayAll(a, a.Tiles().BlockFrame(r, c), order, output) == a.Window(a.Tiles().BlockFrame(r, c))
  {
    var f := a.Tiles().BlockFrame(r, c);
    var laid := LayAll(a, f, order, output);
    a.Tiles().BlockInside(r, c);
    forall b: nat, y: nat, j: nat | b < a.source.bands && y < f.height && j < f.width
      ensures a.Holds(laid, f, b, y, j)
    {
      a.PositionVisited(r, c, f.top + y, f.left + j);
      LaidAt(a, f, order, output, b, y, j);
    }
    a.HoldsEverywhere(laid, f);
  }

  // ----- 32-bit arithmetic -----

  /**
   The geometry check answers the grid question for every request whose products fit in 32 bits.
   A request whose products do not fit is out of the grid.
   */
  lemma HasBlockIsExact(a: TileAssembler, r: nat, c: nat)
    requires a.Ready() && a.source.columns < U32_LIMIT && a.source.rows < U32_LIMIT
    ensures c * a.tileWidth < U32_LIMIT && r * a.tileHeight < U32_LIMIT ==> (a.HasBlock(r, c) <==> a.InGrid(r, c))
    ensures c * a.tileWidth >= U32_LIMIT || r * a.tileHeight >= U32_LIMIT ==> !a.InGrid(r, c)
  {
    CeilDivCounts(a.source.columns, a.tileWidth, c);
    CeilDivCounts(a.source.rows, a.tileHeight, r);
  }

  /** The product is x, but for the part of it that does not fit in 32 bits. */
  predicate WrapsTo(product: nat, x: nat, k: nat) { x < 0x1_0000_0000 && product == k * 0x1_0000_0000 + x }

  /** In general the check accepts exactly the requests whose start, wrapped around, lies in the image. */
  lemma HasBlockAccepts(a: TileAssembler, r: nat, c: nat)
    requires a.source.columns <= U32_LIMIT && a.source.rows <= U32_LIMIT
    ensures a.HasBlock(r, c) <==>
              exists x: nat, y: nat, k: nat, m: nat ::
                WrapsTo(c * a.tileWidth, x, k) && WrapsTo(r * a.tileHeight, y, m) && x < a.source.columns && y < a.source.rows
  {
    var start, top := c * a.tileWidth, r * a.tileHeight;
    WrapsOnce(start);
    WrapsOnce(top);
    if x: nat, y: nat, k: nat, m: nat :| WrapsTo(start, x, k) && WrapsTo(top, y, m) && x < a.source.columns && y < a.source.rows {
      WrapsAlone(start, x, k);
      WrapsAlone(top, y, m);
    }
  }

  lemma WrapsOnce(product: nat)
    ensures WrapsTo(product, product % U32_LIMIT, product / U32_LIMIT)
  {}

  lemma WrapsAlone(product: nat, x: nat, k: nat)
    requires WrapsTo(product, x, k)
    ensures x == product % U32_LIMIT
  {
    DivUnique(k, U32_LIMIT, x);
  }

  /** A product that wraps around makes the check accept a tile far outside the grid. */
  lemma HasBlockWraps(source: ImageProvider)
    requires source.WellFormed() && source.columns == source.rows == 1
    ensures var a := TileAssembler(source, 0x1_0000, 1);
            a.Ready() && a.HasBlock(0, 0x1_0000) && !a.InGrid(0, 0x1_0000)
  {
    HasBlockIsExact(TileAssembler(source, 0x1_0000, 1), 0, 0x1_0000);
  }

  /** No 32-bit sum or product of the assembler overflows when an image side plus the larger block side fits. */
  lemma NoOverflow(a: TileAssembler, r: nat, c: nat, row: nat, col: nat)
    requires a.Ready() && a.InGrid(r, c) && Nominal(a, row, col)
    requires a.FirstRow(r) <= row < a.EndRow(r) && a.FirstCol(c) <= col < a.EndCol(c)
    requires a.source.columns + Max(a.tileWidth, a.source.blockWidth) <= U32_LIMIT
    requires a.source.rows + Max(a.tileHeight, a.source.blockHeight) <= U32_LIMIT
    ensures a.source.InGrid(row, col)
    ensures c * a.tileWidth + a.tileWidth < U32_LIMIT && r * a.tileHeight + a.tileHeight < U32_LIMIT
    ensures var blk := a.source.getBlock(row, col).value;
            && col * a.source.blockWidth + blk.cols < U32_LIMIT && row * a.source.blockHeight + blk.rows < U32_LIMIT
  {
    a.BlocksMeetTile(r, c);
    a.Tiles().BlockInside(r, c);
    a.source.Blocks().BlockInside(row, col);
  }
}
