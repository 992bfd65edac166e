/**
 What the in-memory image promises over whole runs: every read is a read of one
 copy-on-write image, and the three ways of getting a full image back agree.
 */
module CopyOnWrite {
  import opened Wrappers
  import opened Bsq
  import opened Overlay
  import opened BlockGrid
  import opened ImageProvider
  import opened TileAssembler
  import opened BufferedImage
  import Retiling

  // ----- one image behind every read -----

  /**
   The copy-on-write image: the override of the block that holds the position if one was set,
   otherwise the source inside its extent, otherwise the pad pixel.
   */
  function Cow(s: ImageState, b: nat, y: nat, j: nat): byte
    requires s.Valid()
  {
    var k := s.G().Owner(y, j);
    if k in s.blocks then
      if s.G().BlockFrame(k.0, k.1).Contains(y, j) then s.G().BlockFrame(k.0, k.1).Read(s.blocks[k], b, y, j) else 0
    else if s.source.Some? && s.source.value.WellFormed() && s.source.value.Blocks().ImageFrame().Contains(y, j)
    then s.source.value.Sample(b, y, j)
    else s.pad[j % s.config.Bpp()]
  }

  /** Block (r, c) of the copy-on-write image. */
  function CowBlock(s: ImageState, r: nat, c: nat): seq<byte>
    requires s.Valid()
  {
    var f := s.G().BlockFrame(r, c);
    Render(s.config.bands, f.height, f.width, (b: nat, y: nat, j: nat) => Cow(s, b, f.top + y, f.left + j))
  }

  /** The request is answered by the source's own block, its grid being the image's. */
  predicate Direct(s: ImageState, r: nat, c: nat) {
    (r, c) !in s.blocks && s.source.Some? && s.SameGrid() && s.source.value.WellFormed() && s.source.value.InGrid(r, c)
  }

  /** Clipping block (r, c) to the source or to the image is the same. */
  predicate EdgesAgree(s: ImageState, r: nat, c: nat)
    requires s.source.Some?
  {
    s.source.value.Blocks().BlockRows(r) == s.G().BlockRows(r) && s.source.value.Blocks().BlockCols(c) == s.G().BlockCols(c)
  }

  lemma CowFromOverride(s: ImageState, r: nat, c: nat)
    requires s.Valid() && (r, c) in s.blocks && s.WellSized(r, c, s.blocks[(r, c)])
    ensures s.blocks[(r, c)] == CowBlock(s, r, c)
  {
    var f, data := s.G().BlockFrame(r, c), s.blocks[(r, c)];
    s.G().BlockInside(r, c);
    forall b: nat, y: nat, j: nat | b < s.config.bands && y < f.height && j < f.width
      ensures At(data, f.height, f.width, b, y, j) == Cow(s, b, f.top + y, f.left + j)
    {
      s.G().Partition(f.top + y, f.left + j, r, c);
    }
    RenderUnique(data, s.config.bands, f.height, f.width, (b: nat, y: nat, j: nat) => Cow(s, b, f.top + y, f.left + j));
  }

  /** A block on the source's grid is the image's block, if their edges agree. */
  lemma CowDirect(s: ImageState, r: nat, c: nat, blk: Block)
    requires s.Valid() && s.InGrid(r, c) && s.Serves(r, c) && Direct(s, r, c) && EdgesAgree(s, r, c)
    requires s.source.value.Clips() && s.source.value.getBlock(r, c) == Ok(blk)
    ensures blk.data == CowBlock(s, r, c) && blk.rows == s.G().BlockRows(r) && blk.cols == s.G().BlockCols(c)
  {
    var f, a := s.G().BlockFrame(r, c), s.Assembler();
    assert a.Tiles().BlockFrame(r, c) == f;
    s.G().BlockInside(r, c);
    a.Tiles().BlockInside(r, c);
    forall b: nat, y: nat, j: nat | b < s.config.bands && y < f.height && j < f.width
      ensures At(blk.data, f.height, f.width, b, y, j) == Cow(s, b, f.top + y, f.left + j)
    {
      s.G().Partition(f.top + y, f.left + j, r, c);
      Retiling.TileHolds(a, r, c, blk, b, y, j);
    }
    RenderUnique(blk.data, s.config.bands, f.height, f.width, (b: nat, y: nat, j: nat) => Cow(s, b, f.top + y, f.left + j));
  }

  /** The pad pixel repeats in step with the image's pixels. */
  lemma PadInStep(s: ImageState, r: nat, c: nat, j: nat)
    requires s.Valid() && s.InGrid(r, c)
    ensures (s.G().BlockFrame(r, c).left + j) % s.config.Bpp() == j % s.config.Bpp()
  {
    s.G().BlockInside(r, c);
    ModShift(c * s.config.blockWidth, s.config.Bpp(), j);
  }

  /** A block the source does not reach is padding. */
  lemma CowPadding(s: ImageState, r: nat, c: nat)
    requires s.Valid() && s.InGrid(r, c) && s.Serves(r, c) && (r, c) !in s.blocks
    requires s.source.Some? && !s.Assembler().InGrid(r, c)
    ensures s.Padding(r, c) == CowBlock(s, r, c)
  {
    var f, p := s.G().BlockFrame(r, c), s.source.value;
    s.G().BlockInside(r, c);
    forall b: nat, y: nat, j: nat | b < s.config.bands && y < f.height && j < f.width
      ensures At(s.Padding(r, c), f.height, f.width, b, y, j) == Cow(s, b, f.top + y, f.left + j)
    {
      RenderAt(s.config.bands, f.height, f.width, (b: nat, y: nat, j: nat) => s.pad[j % s.config.Bpp()], b, y, j);
      s.G().Partition(f.top + y, f.left + j, r, c);
      PadInStep(s, r, c, j);
      OutsideSource(s, r, c, f.top + y, f.left + j);
    }
    RenderUnique(s.Padding(r, c), s.config.bands, f.height, f.width, (b: nat, y: nat, j: nat) => Cow(s, b, f.top + y, f.left + j));
  }

  lemma OutsideSource(s: ImageState, r: nat, c: nat, y: nat, j: nat)
    requires s.Valid() && s.source.Some? && s.SourceConforms() && s.InGrid(r, c)
    requires !s.Assembler().InGrid(r, c) && s.G().BlockFrame(r, c).Contains(y, j)
    ensures !s.source.value.Blocks().ImageFrame().Contains(y, j)
  {
    s.G().BlockInside(r, c);
    if s.source.value.Blocks().ImageFrame().Contains(y, j) {
      s.G().Partition(y, j, r, c);
      s.Assembler().Tiles().Partition(y, j, r, c);
    }
  }

  /** A tile of a source on another grid, padded where the source ends before the block does. */
  lemma CowRetiled(s: ImageState, r: nat, c: nat, tile: Block)
    requires s.Valid() && s.InGrid(r, c) && s.Serves(r, c) && (r, c) !in s.blocks
    requires s.source.Some? && !s.SameGrid() && s.Assembler().InGrid(r, c) && s.Assembler().Tile(r, c) == Ok(tile)
    ensures s.PadTile(tile, r, c) == CowBlock(s, r, c)
  {
    var f := s.G().BlockFrame(r, c);
    s.G().BlockInside(r, c);
    forall b: nat, y: nat, j: nat | b < s.config.bands && y < f.height && j < f.width
      ensures At(s.PadTile(tile, r, c), f.height, f.width, b, y, j) == Cow(s, b, f.top + y, f.left + j)
    {
      PadTileAt(s, r, c, tile, b, y, j);
    }
    RenderUnique(s.PadTile(tile, r, c), s.config.bands, f.height, f.width, (b: nat, y: nat, j: nat) => Cow(s, b, f.top + y, f.left + j));
  }

  /** A tile as large as the block needs no padding. */
  lemma CowWholeTile(s: ImageState, r: nat, c: nat, tile: Block)
    requires s.Valid() && s.InGrid(r, c) && s.Serves(r, c) && (r, c) !in s.blocks
    requires s.source.Some? && !s.SameGrid() && s.Assembler().InGrid(r, c) && s.Assembler().Tile(r, c) == Ok(tile)
    requires tile.rows == s.G().BlockRows(r) && tile.cols == s.G().BlockCols(c)
    ensures tile.data == CowBlock(s, r, c)
  {
    var f, a := s.G().BlockFrame(r, c), s.Assembler();
    s.G().BlockInside(r, c);
    a.Tiles().BlockInside(r, c);
    assert a.Tiles().BlockFrame(r, c) == f;
    forall b: nat, y: nat, j: nat | b < s.config.bands && y < f.height && j < f.width
      ensures At(tile.data, f.height, f.width, b, y, j) == Cow(s, b, f.top + y, f.left + j)
    {
      Retiling.TileHolds(a, r, c, tile, b, y, j);
      s.G().Partition(f.top + y, f.left + j, r, c);
    }
    RenderUnique(tile.data, s.config.bands, f.height, f.width, (b: nat, y: nat, j: nat) => Cow(s, b, f.top + y, f.left + j));
  }

  lemma PadTileAt(s: ImageState, r: nat, c: nat, tile: Block, b: nat, y: nat, j: nat)
    requires s.Valid() && s.InGrid(r, c) && s.Serves(r, c) && (r, c) !in s.blocks
    requires s.source.Some? && !s.SameGrid() && s.Assembler().InGrid(r, c) && s.Assembler().Tile(r, c) == Ok(tile)
    requires b < s.config.bands && y < s.G().BlockRows(r) && j < s.G().BlockFrame(r, c).width
    ensures At(s.PadTile(tile, r, c), s.G().BlockRows(r), s.G().BlockFrame(r, c).width, b, y, j)
            == Cow(s, b, s.G().BlockFrame(r, c).top + y, s.G().BlockFrame(r, c).left + j)
  {
    var f, a, p := s.G().BlockFrame(r, c), s.Assembler(), s.source.value;
    var t := a.Tiles().BlockFrame(r, c);
    s.G().BlockInside(r, c);
    a.Tiles().BlockInside(r, c);
    s.G().Partition(f.top + y, f.left + j, r, c);
    var layer := Overlay(tile.data, Frame(0, 0, tile.rows, tile.cols * s.config.Bpp()), Frame(0, 0, f.height, f.width), s.config.bands);
    layer.ApplyAt(s.Padding(r, c), b, y, j);
    if layer.from.Contains(y, j) {
      Retiling.TileHolds(a, r, c, tile, b, y, j);
    } else {
      RenderAt(s.config.bands, f.height, f.width, (b: nat, y: nat, j: nat) => s.pad[j % s.config.Bpp()], b, y, j);
      PadInStep(s, r, c, j);
      if p.Blocks().ImageFrame().Contains(f.top + y, f.left + j) {
        a.Tiles().Partition(f.top + y, f.left + j, r, c);
      }
    }
  }

  lemma ReadIsCow(s: ImageState, r: nat, c: nat, blk: Block)
    requires s.Valid() && s.InGrid(r, c) && s.Serves(r, c) && s.AllBands(r, c) == Ok(blk)
    requires (r, c) in s.blocks ==> s.WellSized(r, c, s.blocks[(r, c)])
    requires Direct(s, r, c) ==> s.source.value.Clips() && EdgesAgree(s, r, c)
    ensures blk == Block(CowBlock(s, r, c), s.config.bands, s.G().BlockRows(r), s.G().BlockCols(c))
  {
    if (r, c) in s.blocks {
      CowFromOverride(s, r, c);
    } else if Direct(s, r, c) {
      CowDirect(s, r, c, blk);
    } else {
      CheckIsExact(s, r, c);
      if s.Assembler().InGrid(r, c) {
        match s.Assembler().Tile(r, c)
        case Ok(tile) =>
          CowRetiled(s, r, c, tile);
          if tile.rows == s.G().BlockRows(r) && tile.cols == s.G().BlockCols(c) {
            CowWholeTile(s, r, c, tile);
          }
      } else {
        CowPadding(s, r, c);
      }
    }
  }

  // ----- when a read succeeds -----

  /** Some byte of block (r, c) belongs to the source's block (row, col). */
  ghost predicate SourceNeeds(s: ImageState, r: nat, c: nat, row: nat, col: nat)
    requires s.source.Some? && s.source.value.WellFormed()
  {
    exists y: nat, j: nat :: SourceNeedsAt(s, r, c, row, col, y, j)
  }

  predicate SourceNeedsAt(s: ImageState, r: nat, c: nat, row: nat, col: nat, y: nat, j: nat)
    requires s.source.Some? && s.source.value.WellFormed()
  {
    && s.G().BlockFrame(r, c).Contains(y, j)
    && s.source.value.Blocks().ImageFrame().Contains(y, j) && s.source.value.Blocks().Owner(y, j) == (row, col)
  }

  /** The source serves every one of its blocks that block (r, c) needs. */
  ghost predicate SourceAnswers(s: ImageState, r: nat, c: nat)
    requires s.source.Some? && s.source.value.WellFormed()
  {
    forall row: nat, col: nat | SourceNeeds(s, r, c, row, col) :: s.Assembler().ServedAt(row, col)
  }

  /** The block is overridden, or there is a source and no block of it that is needed fails. */
  ghost predicate Readable(s: ImageState, r: nat, c: nat)
    requires s.Valid() && s.InGrid(r, c) && s.Serves(r, c)
  {
    (r, c) in s.blocks || (s.source.Some? && SourceAnswers(s, r, c))
  }

  lemma NeedsNothing(s: ImageState, r: nat, c: nat)
    requires s.Valid() && s.source.Some? && s.SourceConforms() && s.InGrid(r, c) && !s.Assembler().InGrid(r, c)
    ensures forall row: nat, col: nat :: !SourceNeeds(s, r, c, row, col)
  {
    forall y: nat, j: nat | s.G().BlockFrame(r, c).Contains(y, j)
      ensures !s.source.value.Blocks().ImageFrame().Contains(y, j)
    {
      OutsideSource(s, r, c, y, j);
    }
  }

  /** The source's blocks that the block needs are those its tile needs. */
  lemma NeedsOfTile(s: ImageState, r: nat, c: nat, row: nat, col: nat)
    requires s.Valid() && s.source.Some? && s.SourceConforms() && s.InGrid(r, c) && s.Assembler().InGrid(r, c)
    requires s.SameGrid() || s.TileInBlock(r, c)
    ensures SourceNeeds(s, r, c, row, col) <==> s.Assembler().Needs(r, c, row, col)
  {
    var a := s.Assembler();
    s.G().BlockInside(r, c);
    a.Tiles().BlockInside(r, c);
    if y: nat, j: nat :| SourceNeedsAt(s, r, c, row, col, y, j) {
      s.G().Partition(y, j, r, c);
      a.Tiles().Partition(y, j, r, c);
      assert a.NeedsAt(r, c, row, col, y, j);
    }
    if a.Needs(r, c, row, col) {
      if s.SameGrid() {
        NeedsCorner(s, r, c, row, col);
      } else {
        var y: nat, j: nat :| a.NeedsAt(r, c, row, col, y, j);
        a.PositionVisited(r, c, y, j);
        MulMono(a.Tiles().BlockCols(c), s.G().BlockCols(c), s.config.Bpp());
        assert SourceNeedsAt(s, r, c, row, col, y, j);
      }
    }
  }

  lemma NeedsCorner(s: ImageState, r: nat, c: nat, row: nat, col: nat)
    requires s.Valid() && s.source.Some? && s.SourceConforms() && s.InGrid(r, c) && s.Assembler().InGrid(r, c)
    requires s.SameGrid() && s.Assembler().Needs(r, c, row, col)
    ensures SourceNeeds(s, r, c, row, col)
  {
    var a, f := s.Assembler(), s.G().BlockFrame(r, c);
    a.NeedsOwn(r, c, row, col);
    s.G().BlockInside(r, c);
    a.Tiles().BlockInside(r, c);
    a.Tiles().Partition(f.top, f.left, r, c);
    assert SourceNeedsAt(s, r, c, row, col, f.top, f.left);
  }

  /** Reading a block of the grid succeeds exactly when it is overridden, or there is a source and no block of it that is needed fails. */
  lemma ReadSucceeds(s: ImageState, r: nat, c: nat)
    requires s.Valid() && s.InGrid(r, c) && s.Serves(r, c)
    ensures s.AllBands(r, c).Ok? <==> Readable(s, r, c)
  {
    if (r, c) !in s.blocks && s.source.Some? {
      CheckIsExact(s, r, c);
      if s.Assembler().InGrid(r, c) {
        s.Assembler().TileSucceeds(r, c);
        forall row: nat, col: nat ensures SourceNeeds(s, r, c, row, col) <==> s.Assembler().Needs(r, c, row, col) {
          NeedsOfTile(s, r, c, row, col);
        }
      } else {
        NeedsNothing(s, r, c);
      }
    }
  }

  /**
   Copy-on-write: reading a block succeeds exactly when it is overridden or the source serves what
   it needs, and then gives the block of the copy-on-write image with all its bands. On a
   matching grid this needs a source whose edges agree with the image's at that block.
   */
  lemma AllBandsIsCow(s: ImageState, r: nat, c: nat)
    requires s.Valid() && s.InGrid(r, c) && s.Serves(r, c)
    requires (r, c) in s.blocks ==> s.WellSized(r, c, s.blocks[(r, c)])
    requires Direct(s, r, c) ==> s.source.value.Clips() && EdgesAgree(s, r, c)
    ensures s.AllBands(r, c).Ok? <==> Readable(s, r, c)
    ensures Readable(s, r, c) ==>
              s.AllBands(r, c) == Ok(Block(CowBlock(s, r, c), s.config.bands, s.G().BlockRows(r), s.G().BlockCols(c)))
  {
    ReadSucceeds(s, r, c);
    if Readable(s, r, c) {
      ReadIsCow(s, r, c, s.AllBands(r, c).value);
    }
  }

  /**
   An override is read back as it was set, whatever its length, in the shape of its block; bands are cut
   out of it by a band size whose number of pixels is kept in 32 bits.
   */
  lemma OverrideIsRead(s: ImageState, r: nat, c: nat, bands: Option<seq<nat>>)
    requires s.Valid() && (r, c) in s.blocks
    ensures s.InGrid(r, c) && s.Serves(r, c)
    ensures var rows, cols := s.G().BlockRows(r), s.G().BlockCols(c);
            s.GetBlock(r, c, 0, bands)
            == match bands
               case None => Ok(Block(s.blocks[(r, c)], s.config.bands, rows, cols))
               case Some(indices) =>
                 Ok(Block(SelectBands(s.blocks[(r, c)], rows * cols % 0x1_0000_0000 * s.config.Bpp(), indices), |indices|, rows, cols))
  {}

  /** The block has the source block's shape, and the image's bytes wherever the block lies in the source. */
  ghost predicate ShowsSource(s: ImageState, r: nat, c: nat, blk: Block)
    requires s.Valid() && s.source.Some? && s.source.value.WellFormed()
  {
    var p, f := s.source.value, s.source.value.Blocks().BlockFrame(r, c);
    && blk.bands == s.config.bands && |blk.data| == s.config.bands * blk.rows * (blk.cols * s.config.Bpp())
    && f.height <= blk.rows && p.Blocks().BlockCols(c) <= blk.cols
    && forall b: nat, y: nat, j: nat | b < s.config.bands && y < f.height && j < f.width ::
         At(blk.data, blk.rows, blk.cols * s.config.Bpp(), b, y, j) == Cow(s, b, f.top + y, f.left + j)
  }

  /**
   On a matching grid a block of the source is passed on, clipped or padded, whether or not the edges
   agree: in the source's own shape, with the copy-on-write image in the part that lies in the source and
   whatever the source put there past it, or with its failure.
   */
  lemma DirectIsSource(s: ImageState, r: nat, c: nat, bands: Option<seq<nat>>)
    requires s.Valid() && s.InGrid(r, c) && s.Serves(r, c) && Direct(s, r, c)
    ensures match s.source.value.getBlock(r, c)
            case Err(e) => s.GetBlock(r, c, 0, bands) == Err(e)
            case Ok(blk) =>
              && ShowsSource(s, r, c, blk)
              && s.GetBlock(r, c, 0, bands)
                 == match bands
                    case None => Ok(blk)
                    case Some(indices) =>
                      Ok(Block(SelectBands(blk.data, blk.rows * blk.cols * s.config.Bpp(), indices), |indices|, blk.rows, blk.cols))
  {
    match s.source.value.getBlock(r, c)
    case Err(_) =>
    case Ok(blk) => DirectShows(s, r, c, blk);
  }

  lemma DirectShows(s: ImageState, r: nat, c: nat, blk: Block)
    requires s.Valid() && s.InGrid(r, c) && s.Serves(r, c) && Direct(s, r, c) && s.source.value.getBlock(r, c) == Ok(blk)
    ensures ShowsSource(s, r, c, blk)
  {
    var p, f := s.source.value, s.source.value.Blocks().BlockFrame(r, c);
    p.Blocks().BlockInside(r, c);
    assert s.Assembler().Tiles().BlockFrame(r, c) == f;
    forall b: nat, y: nat, j: nat | b < s.config.bands && y < f.height && j < f.width
      ensures At(blk.data, blk.rows, blk.cols * s.config.Bpp(), b, y, j) == Cow(s, b, f.top + y, f.left + j)
    {
      p.Blocks().Partition(f.top + y, f.left + j, r, c);
      Retiling.TileHolds(s.Assembler(), r, c, blk, b, y, j);
    }
  }

  /**
   How a read fails: off level 0 or the grid, as such; without an override or a source, for want of the
   block; and otherwise as the first source block in reading order that is needed and fails.
   */
  lemma ReadFails(s: ImageState, r: nat, c: nat, level: nat, bands: Option<seq<nat>>)
    requires s.Valid() && s.Serves(r, c)
    ensures level != 0 || !s.InGrid(r, c) ==> s.GetBlock(r, c, level, bands) == Err(InvalidBlockCoordinates(r, c, level))
    ensures s.InGrid(r, c) && (r, c) !in s.blocks && s.source.None? ==> s.GetBlock(r, c, 0, bands) == Err(Decode("Block not found"))
    ensures s.InGrid(r, c) && (r, c) !in s.blocks && s.source.Some? && s.GetBlock(r, c, 0, bands).Err? ==>
              s.Assembler().Ready() && exists row: nat, col: nat :: s.Assembler().FirstFailing(r, c, row, col, s.GetBlock(r, c, 0, bands).error)
  {
    if s.InGrid(r, c) && (r, c) !in s.blocks && s.source.Some? && s.AllBands(r, c).Err? {
      CheckIsExact(s, r, c);
      s.Assembler().TileSucceeds(r, c);
    }
  }

  // ----- what has_block means -----

  /** Some byte of block (r, c) lies in the source's image. */
  ghost predicate MeetsSource(s: ImageState, r: nat, c: nat)
    requires s.source.Some?
  {
    exists y: nat, j: nat :: MeetsAt(s, r, c, y, j)
  }

  predicate MeetsAt(s: ImageState, r: nat, c: nat, y: nat, j: nat)
    requires s.source.Some?
  {
    s.G().BlockFrame(r, c).Contains(y, j) && s.source.value.Blocks().ImageFrame().Contains(y, j)
  }

  lemma MeetsExactly(s: ImageState, r: nat, c: nat)
    requires s.Valid() && s.source.Some? && s.SourceConforms() && s.InGrid(r, c)
    ensures MeetsSource(s, r, c) <==> s.Assembler().InGrid(r, c)
  {
    if y: nat, j: nat :| MeetsAt(s, r, c, y, j) {
      if !s.Assembler().InGrid(r, c) {
        OutsideSource(s, r, c, y, j);
      }
    }
    if s.Assembler().InGrid(r, c) {
      var f := s.G().BlockFrame(r, c);
      s.G().BlockInside(r, c);
      s.Assembler().Tiles().BlockInside(r, c);
      assert MeetsAt(s, r, c, f.top, f.left);
    }
  }

  /**
   Over a source on another grid, a block is reported present exactly when it is overridden or some
   byte of it lies in the source's image. A block that is reported absent can still be read: it is
   padding. So the report agrees with reading exactly when the block is overridden, or lies in
   the source at least in part and no source block that it needs fails.
   */
  lemma HasBlockMeans(s: ImageState, r: nat, c: nat)
    requires s.Valid() && s.InGrid(r, c) && s.source.Some? && s.SourceConforms() && !s.SameGrid() && s.Serves(r, c)
    ensures s.HasBlock(r, c, 0) == Ok((r, c) in s.blocks || MeetsSource(s, r, c))
    ensures s.HasBlock(r, c, 0) == Ok(false) ==>
              s.AllBands(r, c) == Ok(Block(s.Padding(r, c), s.config.bands, s.G().BlockRows(r), s.G().BlockCols(c)))
    ensures s.HasBlock(r, c, 0) == Ok(s.AllBands(r, c).Ok?)
            <==> (r, c) in s.blocks || (MeetsSource(s, r, c) && SourceAnswers(s, r, c))
  {
    CheckIsExact(s, r, c);
    MeetsExactly(s, r, c);
    ReadSucceeds(s, r, c);
  }

  /**
   Over a source on the same grid, the report for a block that is not overridden is the source's own.
   If the source reports what it serves, and nothing outside its grid, the report agrees with reading
   exactly when the block is overridden or in the source's grid.
   */
  lemma HasBlockOnSameGrid(s: ImageState, r: nat, c: nat)
    requires s.Valid() && s.InGrid(r, c) && s.source.Some? && s.SourceConforms() && s.SameGrid() && s.Serves(r, c)
    ensures s.HasBlock(r, c, 0) == if (r, c) in s.blocks then Ok(true) else s.source.value.hasBlock(r, c)
    ensures (forall row: nat, col: nat :: s.source.value.hasBlock(row, col)
              == Ok(s.source.value.InGrid(row, col) && s.source.value.getBlock(row, col).Ok?)) ==>
              (s.HasBlock(r, c, 0) == Ok(s.AllBands(r, c).Ok?) <==> (r, c) in s.blocks || s.source.value.InGrid(r, c))
  {
    CheckIsExact(s, r, c);
  }

  /**
   On a matching grid nothing is padded or cut: the block comes back in the image's shape exactly
   when the source's edge and the image's edge clip it alike.
   */
  lemma DirectShape(s: ImageState, r: nat, c: nat, blk: Block)
    requires s.Valid() && s.InGrid(r, c) && s.Serves(r, c) && Direct(s, r, c) && s.source.value.Clips()
    requires s.GetBlock(r, c, 0, None) == Ok(blk)
    ensures blk.rows == s.G().BlockRows(r) && blk.cols == s.G().BlockCols(c) <==> EdgesAgree(s, r, c)
  {}

  /**
   The padding copy needs tiles no larger than their blocks. Over the whole grid that is so exactly
   when, on each axis, the source ends no later than the image or the image ends with a whole block.
   */
  lemma TilesFitExactly(s: ImageState)
    requires s.Valid() && s.source.Some? && s.source.value.WellFormed()
    requires 0 < s.config.rows && 0 < s.config.columns && 0 < s.source.value.rows && 0 < s.source.value.columns
    ensures s.TilesFit() <==> forall r: nat, c: nat | s.InGrid(r, c) && s.Assembler().InGrid(r, c) :: s.TileInBlock(r, c)
  {
    if s.TilesFit() {
      forall r: nat, c: nat | s.InGrid(r, c) && s.Assembler().InGrid(r, c) ensures s.TileInBlock(r, c) {
        TileFits(s, r, c);
      }
    } else {
      var r, c := OvershootingTile(s);
      assert !s.TileInBlock(r, c);
    }
  }

  /** A tile that is larger than its block. */
  lemma OvershootingTile(s: ImageState) returns (r: nat, c: nat)
    requires s.Valid() && s.source.Some? && s.source.value.WellFormed() && !s.TilesFit()
    requires 0 < s.config.rows && 0 < s.config.columns && 0 < s.source.value.rows && 0 < s.source.value.columns
    ensures s.InGrid(r, c) && s.Assembler().InGrid(r, c) && !s.TileInBlock(r, c)
  {
    var p, w, h := s.source.value, s.config.blockWidth, s.config.blockHeight;
    if !AxisFits(p.rows, s.config.rows, h) {
      r, c := s.config.rows / h, 0;
      ClipOvershoots(p.rows, s.config.rows, h);
    } else {
      r, c := 0, s.config.columns / w;
      ClipOvershoots(p.columns, s.config.columns, w);
    }
    BothGrids(s, r, c);
  }

  /** The padding copy writes line y of band b of the tile, w bytes of it, inside a buffer of n bands of height lines of width bytes. */
  predicate RunFits(n: nat, height: nat, width: nat, w: nat, b: nat, y: nat) {
    Offset(height, width, b, y, 0) + w <= n * height * width
  }

  /**
   What the padding copy does with a tile of h lines of w bytes that is too large: it panics unless
   the run of the tile's last line stays inside a band's size. A tile that is wider than the block but
   shorter passes, and then its last line spills into the line below it, which should be padding.
   */
  lemma OversizeTile(n: nat, height: nat, width: nat, h: nat, w: nat)
    requires n > 0 && h > 0
    ensures (forall b: nat, y: nat | b < n && y < h :: RunFits(n, height, width, w, b, y)) <==> (h - 1) * width + w <= height * width
    ensures (h - 1) * width + w <= height * width && w > width ==>
              h < height && Offset(height, width, n - 1, h - 1, 0) + width == Offset(height, width, n - 1, h, 0)
  {
    LastRun(n, height, width, h, w);
    if (h - 1) * width + w <= height * width {
      forall b: nat, y: nat | b < n && y < h ensures RunFits(n, height, width, w, b, y) {
        EarlierRun(n, height, width, h, w, b, y);
      }
      if w > width && h >= height {
        MulMono(height, h, width);
        assert false;
      }
    } else {
      assert !RunFits(n, height, width, w, n - 1, h - 1);
    }
  }

  lemma LastRun(n: nat, height: nat, width: nat, h: nat, w: nat)
    requires n > 0 && h > 0
    ensures Offset(height, width, n - 1, h - 1, 0) == (n - 1) * height * width + (h - 1) * width
    ensures Offset(height, width, n - 1, h - 1, 0) + width == Offset(height, width, n - 1, h, 0)
    ensures n * height * width == (n - 1) * height * width + height * width
  {
    ScaleSum((n - 1) * height, h - 1, width);
    ScaleSum((n - 1) * height + (h - 1), 1, width);
    ScaleSum((n - 1) * height, height, width);
    assert n * height == (n - 1) * height + height;
  }

  lemma EarlierRun(n: nat, height: nat, width: nat, h: nat, w: nat, b: nat, y: nat)
    requires b < n && y < h && (h - 1) * width + w <= height * width
    ensures RunFits(n, height, width, w, b, y)
  {
    LastRun(n, height, width, h, w);
    MulMono(b, n - 1, height);
    MulMono(b * height + y, (n - 1) * height + (h - 1), width);
  }

  lemma BothGrids(s: ImageState, r: nat, c: nat)
    requires s.Valid() && s.source.Some? && s.source.value.WellFormed()
    requires r * s.config.blockHeight < s.config.rows && r * s.config.blockHeight < s.source.value.rows
    requires c * s.config.blockWidth < s.config.columns && c * s.config.blockWidth < s.source.value.columns
    ensures s.InGrid(r, c) && s.Assembler().InGrid(r, c)
  {
    CeilDivCounts(s.config.rows, s.config.blockHeight, r);
    CeilDivCounts(s.config.columns, s.config.blockWidth, c);
    CeilDivCounts(s.source.value.rows, s.config.blockHeight, r);
    CeilDivCounts(s.source.value.columns, s.config.blockWidth, c);
  }

  // ----- selecting bands -----

  /** How many of the indices name a band. */
  function InRange(indices: seq<nat>, n: nat): nat {
    if indices == [] then 0
    else InRange(indices[..|indices| - 1], n) + if indices[|indices| - 1] < n then 1 else 0
  }

  lemma BandFits(band: nat, n: nat, bandSize: nat)
    requires bandSize > 0
    ensures band * bandSize + bandSize <= n * bandSize <==> band < n
  {
    if band < n {
      MulMono(band + 1, n, bandSize);
    } else {
      MulMono(n, band, bandSize);
    }
  }

  /** The data holds n whole bands, and perhaps a part of another. */
  predicate WholeBands(data: seq<byte>, n: nat, bandSize: nat) {
    n * bandSize <= |data| < n * bandSize + bandSize
  }

  lemma BandOfLength(data: seq<byte>, n: nat, bandSize: nat, band: nat)
    requires WholeBands(data, n, bandSize)
    ensures |BandOf(data, bandSize, band)| == if band < n then bandSize else 0
  {
    if band < n {
      MulMono(band + 1, n, bandSize);
    } else {
      MulMono(n, band, bandSize);
    }
  }

  lemma {:induction false} InRangeCounts(indices: seq<nat>, n: nat)
    ensures InRange(indices, n) <= |indices|
    ensures InRange(indices, n) == |indices| <==> forall k | k in indices :: k < n
  {
    if indices != [] {
      var rest, band := indices[..|indices| - 1], indices[|indices| - 1];
      assert indices == rest + [band];
      assert forall k :: k in indices <==> k in rest || k == band;
      assert band in indices;
      InRangeCounts(rest, n);
    }
  }

  /** The selection holds the indices in range only, though the reported shape counts them all. */
  lemma {:induction false} SelectedLength(data: seq<byte>, n: nat, bandSize: nat, indices: seq<nat>)
    requires WholeBands(data, n, bandSize)
    ensures |SelectBands(data, bandSize, indices)| == InRange(indices, n) * bandSize
  {
    if indices != [] {
      var rest, band := indices[..|indices| - 1], indices[|indices| - 1];
      SelectedLength(data, n, bandSize, rest);
      BandOfLength(data, n, bandSize, band);
      ScaleSum(InRange(rest, n), 1, bandSize);
    }
  }

  /** The reported shape is the data's shape exactly when every index names a band. */
  lemma SelectedShape(data: seq<byte>, n: nat, bandSize: nat, indices: seq<nat>)
    requires WholeBands(data, n, bandSize)
    ensures |SelectBands(data, bandSize, indices)| == |indices| * bandSize <==> forall k | k in indices :: k < n
  {
    SelectedLength(data, n, bandSize, indices);
    InRangeCounts(indices, n);
    BandFits(InRange(indices, n), |indices|, bandSize);
  }

  /** Selected band i is band indices[i] of the data. */
  lemma {:induction false} SelectedBand(data: seq<byte>, n: nat, bandSize: nat, indices: seq<nat>, i: nat)
    requires WholeBands(data, n, bandSize) && i < |indices|
    requires forall k | k in indices :: k < n
    ensures BandOf(SelectBands(data, bandSize, indices), bandSize, i) == BandOf(data, bandSize, indices[i])
    ensures |BandOf(data, bandSize, indices[i])| == bandSize
  {
    var rest, band := indices[..|indices| - 1], indices[|indices| - 1];
    assert forall k | k in rest :: k in indices;
    SelectedShape(data, n, bandSize, rest);
    BandOfLength(data, n, bandSize, indices[i]);
    assert band in indices;
    BandOfLength(data, n, bandSize, band);
    var front := SelectBands(data, bandSize, rest);
    assert SelectBands(data, bandSize, indices) == front + BandOf(data, bandSize, band);
    BandOfAppend(front, BandOf(data, bandSize, band), bandSize, |rest|, i);
    if i < |rest| {
      SelectedBand(data, n, bandSize, rest, i);
    }
  }

  lemma BandOfAppend(front: seq<byte>, last: seq<byte>, bandSize: nat, n: nat, i: nat)
    requires bandSize > 0 && |front| == n * bandSize && |last| == bandSize && i <= n
    ensures BandOf(front + last, bandSize, i) == if i < n then BandOf(front, bandSize, i) else last
  {
    BandFits(i, n, bandSize);
  }
}
