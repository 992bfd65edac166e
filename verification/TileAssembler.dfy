/**
 Output tiles composed from a source whose blocks lie on a different grid.

 Coordinates are unbounded here; `Retiling.NoOverflow` gives the bound under which
 every 32-bit intermediate of the program has the same value.
 */
module TileAssembler {
  import opened Wrappers
  import opened Bsq
  import opened Overlay
  import opened BlockGrid
  import opened ImageProvider

  const U32_LIMIT := 0x1_0000_0000

  datatype TileAssembler = TileAssembler(source: ImageProvider, tileWidth: nat, tileHeight: nat) {

    predicate Ready() { tileWidth > 0 && tileHeight > 0 && source.WellFormed() }

    /** The grid of output tiles. */
    function Tiles(): (g: Grid)
      ensures Ready() ==> g.Valid()
    {
      source.Blocks().(width := tileWidth, height := tileHeight)
    }

    predicate InGrid(r: nat, c: nat) requires Ready() { Tiles().InGrid(r, c) }

    predicate GridsMatch() { tileWidth == source.blockWidth && tileHeight == source.blockHeight }

    /** The geometry check: does the tile start inside the image? Its 32-bit products wrap around. */
    predicate HasBlock(r: nat, c: nat) {
      c * tileWidth % U32_LIMIT < source.columns && r * tileHeight % U32_LIMIT < source.rows
    }

    /** The source blocks that meet tile (r, c) are those with FirstRow <= row < EndRow and FirstCol <= col < EndCol. */
    function FirstRow(r: nat): nat requires Ready() { r * tileHeight / source.blockHeight }

    function FirstCol(c: nat): nat requires Ready() { c * tileWidth / source.blockWidth }

    function EndRow(r: nat): nat requires Ready() { LastBlock(r * tileHeight + Tiles().BlockRows(r), source.blockHeight) + 1 }

    function EndCol(c: nat): nat requires Ready() { LastBlock(c * tileWidth + Tiles().BlockCols(c), source.blockWidth) + 1 }

    /** The first failure among the source blocks from (row, col) on, in reading order. */
    function FirstError(row: nat, col: nat, col0: nat, rowEnd: nat, colEnd: nat): Option<CodecError>
      requires col0 < colEnd && col <= colEnd
      decreases if row <= rowEnd then rowEnd - row else 0, colEnd - col
    {
      if row >= rowEnd then None
      else if col == colEnd then FirstError(row + 1, col0, col0, rowEnd, colEnd)
      else match source.getBlock(row, col)
           case Err(e) => Some(e)
           case Ok(_) => FirstError(row, col + 1, col0, rowEnd, colEnd)
    }

    /** The bytes of the image in a frame. */
    function Window(f: Frame): seq<byte>
      requires Ready()
    {
      Render(source.bands, f.height, f.width, (b: nat, y: nat, j: nat) => source.Sample(b, f.top + y, f.left + j))
    }

    /** The answer to a request for tile (r, c). */
    function Tile(r: nat, c: nat): CodecResult<Block>
      requires Ready()
    {
      if !InGrid(r, c) then Err(InvalidBlockCoordinates(r, c, 0))
      else if GridsMatch() then source.getBlock(r, c)
      else
        BlocksMeetTile(r, c);
        match FirstError(FirstRow(r), FirstCol(c), FirstCol(c), EndRow(r), EndCol(c))
        case Some(e) => Err(e)
        case None => Ok(Block(Window(Tiles().BlockFrame(r, c)), source.bands, Tiles().BlockRows(r), Tiles().BlockCols(c)))
    }

    lemma BlocksMeetTile(r: nat, c: nat)
      requires Ready() && InGrid(r, c)
      ensures FirstRow(r) < EndRow(r) <= source.Blocks().GridRows()
      ensures FirstCol(c) < EndCol(c) <= source.Blocks().GridCols()
    {
      Tiles().BlockInside(r, c);
      BlocksMeetSpan(r * tileHeight, Tiles().BlockRows(r), source.blockHeight, source.rows);
      BlocksMeetSpan(c * tileWidth, Tiles().BlockCols(c), source.blockWidth, source.columns);
    }

    // ----- covering the tile -----

    /** Absolute position (y, j) belongs to a source block before (row, col) in reading order. */
    predicate Before(y: nat, j: nat, row: nat, col: nat)
      requires Ready()
    {
      var owner := source.Blocks().Owner(y, j);
      owner.0 < row || (owner.0 == row && owner.1 < col)
    }

    /** Byte (b, y, j) of a buffer in frame f is the image's byte at that absolute position. */
    ghost predicate Holds(output: seq<byte>, f: Frame, b: nat, y: nat, j: nat)
      requires Ready()
    {
      At(output, f.height, f.width, b, y, j) == source.Sample(b, f.top + y, f.left + j)
    }

    /** The part of the buffer that belongs to the source blocks before (row, col) holds the image. */
    ghost predicate Covered(output: seq<byte>, f: Frame, row: nat, col: nat)
      requires Ready()
    {
      && |output| == source.bands * f.height * f.width
      && forall b: nat, y: nat, j: nat |
           b < source.bands && y < f.height && j < f.width && Before(f.top + y, f.left + j, row, col) ::
           Holds(output, f, b, y, j)
    }

    /** Block (row, col) as it lies in the image. */
    function BlockFrame(row: nat, col: nat, blk: Block): Frame {
      Frame(row * source.blockHeight, col * source.Blocks().Step(), blk.rows, blk.cols * source.Bpp())
    }

    /** Block (row, col), to be laid over a buffer in frame f. */
    function Layer(f: Frame, row: nat, col: nat, blk: Block): Overlay {
      Overlay(blk.data, BlockFrame(row, col, blk), f, source.bands)
    }

    /** A block leaves alone the positions of earlier blocks. */
    lemma EarlierBlock(row: nat, col: nat, blk: Block, y: nat, j: nat)
      requires Ready() && Before(y, j, row, col)
      ensures !BlockFrame(row, col, blk).Contains(y, j)
    {
      source.Blocks().StepPositive();
      if y / source.blockHeight < row {
        StartsAfter(y, source.blockHeight, row);
      } else {
        StartsAfter(j, source.Blocks().Step(), col);
      }
    }

    /** A block that covers its part of the image holds the image's bytes at its own positions. */
    lemma OwnBlock(row: nat, col: nat, blk: Block, b: nat, y: nat, j: nat)
      requires Ready() && source.getBlock(row, col) == Ok(blk) && source.Covers(row, col, blk)
      requires source.Blocks().ImageFrame().Contains(y, j) && source.Blocks().Owner(y, j) == (row, col)
      ensures BlockFrame(row, col, blk).Contains(y, j)
      ensures BlockFrame(row, col, blk).Read(blk.data, b, y, j) == source.Sample(b, y, j)
    {
      var g := source.Blocks();
      g.Partition(y, j, row, col);
      g.PlaceInOwner(y, j);
      MulMono(g.BlockCols(col), blk.cols, g.bpp);
    }

    /** Laying the next block over the tile extends the covered part by it. */
    lemma LayerCovers(output: seq<byte>, f: Frame, row: nat, col: nat, blk: Block)
      requires Ready() && f.top + f.height <= source.rows && f.left + f.width <= source.Blocks().Line()
      requires source.getBlock(row, col) == Ok(blk) && source.Covers(row, col, blk)
      requires Covered(output, f, row, col)
      ensures Covered(Layer(f, row, col, blk).Apply(output), f, row, col + 1)
    {
      var next := Layer(f, row, col, blk).Apply(output);
      forall b: nat, y: nat, j: nat | b < source.bands && y < f.height && j < f.width && Before(f.top + y, f.left + j, row, col + 1)
        ensures Holds(next, f, b, y, j)
      {
        Layer(f, row, col, blk).ApplyAt(output, b, y, j);
        if Before(f.top + y, f.left + j, row, col) {
          EarlierBlock(row, col, blk, f.top + y, f.left + j);
          assert Holds(output, f, b, y, j);
        } else {
          OwnBlock(row, col, blk, b, f.top + y, f.left + j);
        }
      }
    }

    /** The positions of tile (r, c) belong to the blocks visited. */
    lemma PositionVisited(r: nat, c: nat, y: nat, j: nat)
      requires Ready() && InGrid(r, c) && Tiles().BlockFrame(r, c).Contains(y, j)
      ensures source.Blocks().ImageFrame().Contains(y, j)
      ensures var owner := source.Blocks().Owner(y, j);
              FirstRow(r) <= owner.0 < EndRow(r) && FirstCol(c) <= owner.1 < EndCol(c)
    {
      source.Blocks().StepPositive();
      Tiles().BlockInside(r, c);
      SpanBlocks(r * tileHeight, Tiles().BlockRows(r), source.blockHeight, y);
      ByteSpanBlocks(c * tileWidth, Tiles().BlockCols(c), source.blockWidth, source.Bpp(), j);
    }

    lemma NothingCovered(output: seq<byte>, r: nat, c: nat)
      requires Ready() && InGrid(r, c)
      requires |output| == source.bands * Tiles().BlockFrame(r, c).height * Tiles().BlockFrame(r, c).width
      ensures Covered(output, Tiles().BlockFrame(r, c), FirstRow(r), FirstCol(c))
    {
      forall y: nat, j: nat | Tiles().BlockFrame(r, c).Contains(y, j)
        ensures !Before(y, j, FirstRow(r), FirstCol(c))
      {
        PositionVisited(r, c, y, j);
      }
    }

    lemma RowCovered(output: seq<byte>, r: nat, c: nat, row: nat)
      requires Ready() && InGrid(r, c)
      requires Covered(output, Tiles().BlockFrame(r, c), row, EndCol(c))
      ensures Covered(output, Tiles().BlockFrame(r, c), row + 1, FirstCol(c))
    {
      var f := Tiles().BlockFrame(r, c);
      forall b: nat, y: nat, j: nat |
        b < source.bands && y < f.height && j < f.width && Before(f.top + y, f.left + j, row + 1, FirstCol(c))
        ensures Holds(output, f, b, y, j)
      {
        PositionVisited(r, c, f.top + y, f.left + j);
        assert Before(f.top + y, f.left + j, row, EndCol(c));
      }
    }

    /** Once every block that meets the tile is laid over it, the tile is the image's window: no initial byte survives. */
    lemma AllCovered(output: seq<byte>, r: nat, c: nat)
      requires Ready() && InGrid(r, c)
      requires Covered(output, Tiles().BlockFrame(r, c), EndRow(r), FirstCol(c))
      ensures output == Window(Tiles().BlockFrame(r, c))
    {
      var f := Tiles().BlockFrame(r, c);
      forall b: nat, y: nat, j: nat | b < source.bands && y < f.height && j < f.width
        ensures Holds(output, f, b, y, j)
      {
        PositionVisited(r, c, f.top + y, f.left + j);
        assert Before(f.top + y, f.left + j, EndRow(r), FirstCol(c));
      }
      HoldsEverywhere(output, f);
    }

    lemma HoldsEverywhere(output: seq<byte>, f: Frame)
      requires Ready() && |output| == source.bands * f.height * f.width
      requires forall b: nat, y: nat, j: nat | b < source.bands && y < f.height && j < f.width :: Holds(output, f, b, y, j)
      ensures output == Window(f)
    {
      forall b: nat, y: nat, j: nat | b < source.bands && y < f.height && j < f.width
        ensures At(output, f.height, f.width, b, y, j) == source.Sample(b, f.top + y, f.left + j)
      {
        assert Holds(output, f, b, y, j);
      }
      RenderUnique(output, source.bands, f.height, f.width, (b: nat, y: nat, j: nat) => source.Sample(b, f.top + y, f.left + j));
    }

    // ----- when a request succeeds -----

    /** Block (r, c) of the rectangle comes at or after (row, col) in reading order. */
    predicate Ahead(row: nat, col: nat, col0: nat, rowEnd: nat, colEnd: nat, r: nat, c: nat) {
      row <= r < rowEnd && col0 <= c < colEnd && (r == row ==> col <= c)
    }

    predicate ServedAt(r: nat, c: nat) { source.getBlock(r, c).Ok? }

    /** Of the blocks from (row, col) on, (r, c) is the first that fails. */
    ghost predicate FailsFirst(row: nat, col: nat, col0: nat, rowEnd: nat, colEnd: nat, r: nat, c: nat) {
      && Ahead(row, col, col0, rowEnd, colEnd, r, c) && !ServedAt(r, c)
      && forall r': nat, c': nat | Ahead(row, col, col0, rowEnd, colEnd, r', c') && (r' < r || (r' == r && c' < c)) :: ServedAt(r', c')
    }

    /** No error means that every block is served; an error is the answer of the first block in reading order that is not. */
    lemma {:induction false} FirstErrorIsFirst(row: nat, col: nat, col0: nat, rowEnd: nat, colEnd: nat)
      requires col0 < colEnd && col0 <= col <= colEnd
      ensures match FirstError(row, col, col0, rowEnd, colEnd)
              case None => forall r: nat, c: nat | Ahead(row, col, col0, rowEnd, colEnd, r, c) :: ServedAt(r, c)
              case Some(e) => exists r: nat, c: nat :: FailsFirst(row, col, col0, rowEnd, colEnd, r, c) && source.getBlock(r, c) == Err(e)
      decreases if row <= rowEnd then rowEnd - row else 0, colEnd - col
    {
      if row < rowEnd {
        if col == colEnd {
          FirstErrorIsFirst(row + 1, col0, col0, rowEnd, colEnd);
          FirstErrorMoves(row, col, row + 1, col0, col0, rowEnd, colEnd);
        } else if ServedAt(row, col) {
          FirstErrorIsFirst(row, col + 1, col0, rowEnd, colEnd);
          FirstErrorMoves(row, col, row, col + 1, col0, rowEnd, colEnd);
        } else {
          assert FailsFirst(row, col, col0, rowEnd, colEnd, row, col);
        }
      }
    }

    /** Stepping over the end of a row or over a block that is served leaves the first failure where it is. */
    lemma FirstErrorMoves(row: nat, col: nat, row': nat, col': nat, col0: nat, rowEnd: nat, colEnd: nat)
      requires col0 <= col <= colEnd
      requires if col == colEnd then row' == row + 1 && col' == col0 else row' == row && col' == col + 1 && ServedAt(row, col)
      ensures forall r: nat, c: nat | Ahead(row, col, col0, rowEnd, colEnd, r, c) ::
                Ahead(row', col', col0, rowEnd, colEnd, r, c) || ServedAt(r, c)
      ensures forall r: nat, c: nat | FailsFirst(row', col', col0, rowEnd, colEnd, r, c) :: FailsFirst(row, col, col0, rowEnd, colEnd, r, c)
    {}

    /** Some byte of tile (r, c) belongs to source block (row, col). */
    ghost predicate Needs(r: nat, c: nat, row: nat, col: nat)
      requires Ready()
    {
      exists y: nat, j: nat :: NeedsAt(r, c, row, col, y, j)
    }

    predicate NeedsAt(r: nat, c: nat, row: nat, col: nat, y: nat, j: nat)
      requires Ready()
    {
      Tiles().BlockFrame(r, c).Contains(y, j) && source.Blocks().Owner(y, j) == (row, col)
    }

    /** The rectangle of blocks that are asked for holds exactly the blocks that are needed. */
    lemma NeedsExactly(r: nat, c: nat, row: nat, col: nat)
      requires Ready() && InGrid(r, c)
      ensures Needs(r, c, row, col) <==> FirstRow(r) <= row < EndRow(r) && FirstCol(c) <= col < EndCol(c)
    {
      if y: nat, j: nat :| NeedsAt(r, c, row, col, y, j) {
        PositionVisited(r, c, y, j);
      }
      if FirstRow(r) <= row < EndRow(r) && FirstCol(c) <= col < EndCol(c) {
        NeedsMet(r, c, row, col);
      }
    }

    lemma NeedsMet(r: nat, c: nat, row: nat, col: nat)
      requires Ready() && InGrid(r, c) && FirstRow(r) <= row < EndRow(r) && FirstCol(c) <= col < EndCol(c)
      ensures Needs(r, c, row, col)
    {
      Tiles().BlockInside(r, c);
      source.Blocks().StepPositive();
      var y := SharedStart(r * tileHeight, Tiles().BlockRows(r), source.blockHeight, row);
      var j := SharedByte(c * tileWidth, Tiles().BlockCols(c), source.blockWidth, source.Bpp(), col);
      assert NeedsAt(r, c, row, col, y, j);
    }

    /** Every block that the tile needs is served. */
    ghost predicate AllServed(r: nat, c: nat)
      requires Ready()
    {
      forall row: nat, col: nat | Needs(r, c, row, col) :: ServedAt(row, col)
    }

    /** Block (row, col) is needed, fails with e, and every needed block before it in reading order is served. */
    ghost predicate FirstFailing(r: nat, c: nat, row: nat, col: nat, e: CodecError)
      requires Ready()
    {
      && Needs(r, c, row, col) && source.getBlock(row, col) == Err(e)
      && forall row': nat, col': nat | Needs(r, c, row', col') && (row' < row || (row' == row && col' < col)) :: ServedAt(row', col')
    }

    /** On matching grids a tile needs its own block and no other. */
    lemma NeedsOwn(r: nat, c: nat, row: nat, col: nat)
      requires Ready() && InGrid(r, c) && GridsMatch()
      ensures Needs(r, c, row, col) <==> (row, col) == (r, c)
    {
      assert Tiles() == source.Blocks();
      if y: nat, j: nat :| NeedsAt(r, c, row, col, y, j) {
        Tiles().BlockInside(r, c);
        Tiles().Partition(y, j, r, c);
      }
      var f := Tiles().BlockFrame(r, c);
      Tiles().BlockInside(r, c);
      Tiles().Partition(f.top, f.left, r, c);
      assert NeedsAt(r, c, r, c, f.top, f.left);
    }

    /** A request for a tile of the grid succeeds exactly when every source block that the tile needs is served; otherwise it fails as the first of them does. */
    lemma TileSucceeds(r: nat, c: nat)
      requires Ready() && InGrid(r, c)
      ensures Tile(r, c).Ok? <==> AllServed(r, c)
      ensures Tile(r, c).Err? ==> exists row: nat, col: nat :: FirstFailing(r, c, row, col, Tile(r, c).error)
    {
      if GridsMatch() {
        forall row: nat, col: nat ensures Needs(r, c, row, col) <==> (row, col) == (r, c) {
          NeedsOwn(r, c, row, col);
        }
        if !ServedAt(r, c) {
          assert FirstFailing(r, c, r, c, Tile(r, c).error);
        }
      } else {
        BlocksMeetTile(r, c);
        AssembledSucceeds(r, c);
      }
    }

    /** Outside the grid every request fails as such; on the source's own grid its blocks are passed on untouched, padding and all. */
    lemma TileElsewhere(r: nat, c: nat)
      requires Ready()
      ensures r * tileHeight >= source.rows || c * tileWidth >= source.columns <==> Tile(r, c) == Err(InvalidBlockCoordinates(r, c, 0)) && !InGrid(r, c)
      ensures tileWidth == source.blockWidth && tileHeight == source.blockHeight && InGrid(r, c) ==> Tile(r, c) == source.getBlock(r, c)
    {
      CeilDivCounts(source.rows, tileHeight, r);
      CeilDivCounts(source.columns, tileWidth, c);
    }

    lemma AssembledSucceeds(r: nat, c: nat)
      requires Ready() && InGrid(r, c) && FirstCol(c) < EndCol(c)
      ensures match FirstError(FirstRow(r), FirstCol(c), FirstCol(c), EndRow(r), EndCol(c))
              case None => AllServed(r, c)
              case Some(e) => !AllServed(r, c) && exists row: nat, col: nat :: FirstFailing(r, c, row, col, e)
    {
      var row0, col0, rowEnd, colEnd := FirstRow(r), FirstCol(c), EndRow(r), EndCol(c);
      forall row: nat, col: nat ensures Needs(r, c, row, col) <==> Ahead(row0, col0, col0, rowEnd, colEnd, row, col) {
        NeedsExactly(r, c, row, col);
      }
      FirstErrorIsFirst(row0, col0, col0, rowEnd, colEnd);
      match FirstError(row0, col0, col0, rowEnd, colEnd)
      case None =>
      case Some(e) =>
        var row: nat, col: nat :| FailsFirst(row0, col0, col0, rowEnd, colEnd, row, col) && source.getBlock(row, col) == Err(e);
        assert FirstFailing(r, c, row, col, e);
    }

    // ----- the methods -----

    /** Tile (r, c): the source's own block on matching grids, otherwise assembled from the blocks it needs. */
    method GetOutputTile(r: nat, c: nat) returns (result: CodecResult<Block>)
      requires Ready() && source.Conforms()
      ensures result == Tile(r, c)
      ensures InGrid(r, c) ==> (result.Ok? <==> AllServed(r, c))
      ensures !InGrid(r, c) ==> result == Err(InvalidBlockCoordinates(r, c, 0))
    {
      if r >= Tiles().GridRows() || c >= Tiles().GridCols() {
        return Err(InvalidBlockCoordinates(r, c, 0));
      }
      TileSucceeds(r, c);
      if GridsMatch() {
        return source.getBlock(r, c);
      }
      result := AssembleTile(r, c);
    }

    /** The assembling loops, up to the first source failure. */
    method AssembleTile(r: nat, c: nat) returns (result: CodecResult<Block>)
      requires Ready() && source.Conforms() && InGrid(r, c) && !GridsMatch()
      ensures result == Tile(r, c)
    {
      BlocksMeetTile(r, c);
      Tiles().BlockInside(r, c);
      ghost var f := Tiles().BlockFrame(r, c);
      var startX, startY := c * tileWidth, r * tileHeight;
      var endX, endY := Min(startX + tileWidth, source.columns), Min(startY + tileHeight, source.rows);
      var width: nat, height: nat := endX - startX, endY - startY;
      var srcStartCol, srcEndCol := startX / source.blockWidth, LastBlock(endX, source.blockWidth) + 1;
      var srcStartRow, srcEndRow := startY / source.blockHeight, LastBlock(endY, source.blockHeight) + 1;
      assert srcEndCol == EndCol(c) && srcEndRow == EndRow(r);
      var output := NewBuffer(source.bands, height, width, source.Bpp());
      NothingCovered(output[..], r, c);
      for srcRow := srcStartRow to srcEndRow
        invariant Covered(output[..], f, srcRow, srcStartCol)
        invariant FirstError(srcStartRow, srcStartCol, srcStartCol, srcEndRow, srcEndCol)
                  == FirstError(srcRow, srcStartCol, srcStartCol, srcEndRow, srcEndCol)
      {
        for srcCol := srcStartCol to srcEndCol
          invariant Covered(output[..], f, srcRow, srcCol)
          invariant FirstError(srcStartRow, srcStartCol, srcStartCol, srcEndRow, srcEndCol)
                    == FirstError(srcRow, srcCol, srcStartCol, srcEndRow, srcEndCol)
        {
          var answer := source.getBlock(srcRow, srcCol);
          if answer.Err? {
            return Err(answer.error);
          }
          ghost var was := output[..];
          CopyTileRegion(answer.value, srcRow, srcCol, output, startX, startY, width, height, f);
          LayerCovers(was, f, srcRow, srcCol, answer.value);
        }
        RowCovered(output[..], r, c, srcRow);
      }
      AllCovered(output[..], r, c);
      return Ok(Block(output[..], source.bands, height, width));
    }

    /** Copies the block's share of the tile, band by band and line by line. */
    method CopyTileRegion(src: Block, srcRow: nat, srcCol: nat, output: array<byte>,
                          outStartX: nat, outStartY: nat, outWidth: nat, outHeight: nat, ghost f: Frame)
      requires Ready()
      requires f == Frame(outStartY, outStartX * source.Bpp(), outHeight, outWidth * source.Bpp())
      requires Layer(f, srcRow, srcCol, src).Fits()
      requires output.Length == source.bands * f.height * f.width
      modifies output
      ensures output[..] == Layer(f, srcRow, srcCol, src).Apply(old(output[..]))
    {
      ghost var was, layer := output[..], Layer(f, srcRow, srcCol, src);
      var bpp := source.Bpp();
      var srcStartX, srcStartY := srcCol * source.blockWidth, srcRow * source.blockHeight;
      var overlapStartX, overlapStartY := Max(outStartX, srcStartX), Max(outStartY, srcStartY);
      var overlapEndX, overlapEndY := Min(outStartX + outWidth, srcStartX + src.cols), Min(outStartY + outHeight, srcStartY + src.rows);
      Assoc(srcCol, source.blockWidth, bpp);
      layer.SharedColumns(outStartX, outWidth, srcStartX, src.cols, bpp);
      if overlapStartX >= overlapEndX || overlapStartY >= overlapEndY {
        layer.NothingShared(was);
        return;
      }
      var overlapWidth: nat := overlapEndX - overlapStartX;
      var srcOffsetX: nat, srcOffsetY: nat := overlapStartX - srcStartX, overlapStartY - srcStartY;
      var outOffsetX: nat, outOffsetY: nat := overlapStartX - outStartX, overlapStartY - outStartY;
      CopyBands(source.bands, src.data, src.rows, src.cols, srcOffsetY, srcOffsetX, output, outHeight, outWidth, outOffsetY, outOffsetX,
                overlapEndY - overlapStartY, overlapWidth, bpp, layer);
    }
  }

  /** The whole image as one tile. */
  method ReassembleFullImage(source: ImageProvider) returns (result: CodecResult<Block>)
    requires source.columns > 0 && source.rows > 0 && source.WellFormed() && source.Conforms()
    ensures result == TileAssembler(source, source.columns, source.rows).Tile(0, 0)
    ensures result.Ok? <==> TileAssembler(source, source.columns, source.rows).AllServed(0, 0)
  {
    CeilDivCounts(source.rows, source.rows, 0);
    CeilDivCounts(source.columns, source.columns, 0);
    var assembler := TileAssembler(source, source.columns, source.rows);
    result := assembler.GetOutputTile(0, 0);
  }

  // ----- spans of blocks -----

  /** The block of the last position before `end`. */
  function LastBlock(end: nat, size: nat): nat
    requires size > 0
  {
    (if end == 0 then 0 else end - 1) / size
  }

  /** The blocks that meet a nonempty span lie in the grid. */
  lemma BlocksMeetSpan(start: nat, len: nat, size: nat, extent: nat)
    requires size > 0 && len > 0 && start + len <= extent
    ensures start / size <= LastBlock(start + len, size) < CeilDiv(extent, size)
  {
    DivMono(start, start + len - 1, size);
    AxisPartition(extent, size, 0, start + len - 1);
  }

  /** A position of a span lies in one of the blocks that meet it. */
  lemma SpanBlocks(start: nat, len: nat, size: nat, p: nat)
    requires size > 0 && start <= p < start + len
    ensures start / size <= p / size <= LastBlock(start + len, size)
  {
    DivMono(start, p, size);
    DivMono(p, start + len - 1, size);
  }

  /** The pixel of a byte column of a span. */
  lemma PixelOfByte(start: nat, len: nat, bpp: nat, j: nat) returns (x: nat)
    requires bpp > 0 && start * bpp <= j < start * bpp + len * bpp
    ensures start <= x < start + len && x * bpp <= j < x * bpp + bpp
  {
    x := j / bpp;
    assert (start + len) * bpp == start * bpp + len * bpp;
    if x < start {
      MulMono(x + 1, start, bpp);
    } else if x >= start + len {
      MulMono(start + len, x, bpp);
    }
  }

  /** Where a span and a block that meets it begin to overlap. */
  lemma SharedStart(start: nat, len: nat, size: nat, k: nat) returns (p: nat)
    requires size > 0 && len > 0 && start / size <= k <= LastBlock(start + len, size)
    ensures start <= p < start + len && p / size == k
  {
    var first := k * size;
    StartsBefore(k, size, start + len - 1);
    StartOfBlock(k, size);
    p := Max(start, first);
    DivMono(first, p, size);
  }

  lemma StartOfBlock(k: nat, size: nat)
    requires size > 0
    ensures k * size / size == k
  {
    DivUnique(k, size, 0);
  }

  lemma StartsBefore(k: nat, size: nat, last: nat)
    requires size > 0 && k <= last / size
    ensures k * size <= last
  {
    DivMod(last, size);
    MulMono(k, last / size, size);
  }

  lemma SharedByte(start: nat, len: nat, size: nat, bpp: nat, k: nat) returns (j: nat)
    requires size > 0 && len > 0 && bpp > 0 && start / size <= k <= LastBlock(start + len, size)
    ensures size * bpp > 0 && start * bpp <= j < start * bpp + len * bpp && j / (size * bpp) == k
  {
    var x := SharedStart(start, len, size, k);
    j := x * bpp;
    DivOfProduct(x, size, bpp, 0);
    MulMono(start, x, bpp);
    MulLess(x, start + len, bpp);
    ScaleSum(start, len, bpp);
  }

  /** The same for byte columns. */
  lemma ByteSpanBlocks(start: nat, len: nat, size: nat, bpp: nat, j: nat)
    requires size > 0 && bpp > 0 && size * bpp > 0 && start * bpp <= j < start * bpp + len * bpp
    ensures start / size <= j / (size * bpp) <= LastBlock(start + len, size)
  {
    var x := PixelOfByte(start, len, bpp, j);
    DivOfProduct(x, size, bpp, j - x * bpp);
    SpanBlocks(start, len, size, x);
  }
}
