/**
 The in-memory image as an object: its block map and its set of provided blocks change in
 place, and every method does what `ImageState` says.
 */
module BufferedProvider {
  import opened Wrappers
  import opened Bsq
  import opened Overlay
  import opened BlockGrid
  import opened ImageProvider
  import opened TileAssembler
  import opened BufferedImage
  import opened CopyOnWrite

  class BufferedImageAssetProvider {
    const config: Config
    const source: Option<ImageProvider>
    const pad: seq<byte>
    var blocks: map<(nat, nat), seq<byte>>
    var provided: set<(nat, nat)>

    function State(): ImageState
      reads this
    {
      ImageState(config, blocks, provided, source, pad)
    }

    constructor (config: Config, source: Option<ImageProvider>, pad: seq<byte>)
      requires config.Valid() && |pad| == config.Bpp()
      ensures State() == ImageState(config, map[], {}, source, pad) && State().Valid()
    {
      this.config, this.source, this.pad := config, source, pad;
      blocks, provided := map[], {};
    }

    method SetBlock(r: nat, c: nat, data: seq<byte>) returns (result: CodecResult<()>)
      requires State().Valid()
      modifies this
      ensures (State(), result) == old(State()).SetBlock(r, c, data) && State().Valid()
      ensures result.Ok? <==> State().InGrid(r, c)
      ensures result.Err? ==> State() == old(State())
    {
      if r >= config.Blocks().GridRows() || c >= config.Blocks().GridCols() {
        return Err(InvalidBlockCoordinates(r, c, 0));
      }
      blocks := blocks[(r, c) := data];
      provided := provided + {(r, c)};
      return Ok(());
    }

    method SetFullImage(data: seq<byte>) returns (result: CodecResult<()>)
      requires State().Valid()
      modifies this
      ensures (State(), result) == old(State()).SetFullImage(data) && State().Valid()
      ensures result.Ok? <==> |data| == config.rows * config.columns * config.bands * config.Bpp()
      ensures result.Err? ==> State() == old(State())
    {
      var g := config.Blocks();
      var expectedSize := config.rows * config.columns * config.bands * config.Bpp();
      Assoc(config.bands * config.rows, config.columns, config.Bpp());
      assert expectedSize == config.bands * config.rows * g.Line();
      if |data| != expectedSize {
        return Err(Decode("Data size mismatch"));
      }
      for row := 0 to g.GridRows()
        invariant State().Valid() && CutBefore(config, data, blocks, row, 0)
      {
        for col := 0 to g.GridCols()
          invariant State().Valid() && CutBefore(config, data, blocks, row, col)
        {
          var blockData := ExtractBlockBsq(data, row, col);
          blocks := blocks[(row, col) := blockData];
          provided := provided + {(row, col)};
        }
      }
      CutAll(config, data, blocks);
      return Ok(());
    }

    /** Block (row, col) cut out of a full image. */
    method ExtractBlockBsq(data: seq<byte>, row: nat, col: nat) returns (blockData: seq<byte>)
      requires config.Valid() && State().InGrid(row, col)
      requires |data| == config.bands * config.rows * State().G().Line()
      ensures blockData == config.Extract(data, row, col)
    {
      var bpp := config.Bpp();
      State().G().BlockInside(row, col);
      var startRow, startCol := row * config.blockHeight, col * config.blockWidth;
      var endRow, endCol := Min(startRow + config.blockHeight, config.rows), Min(startCol + config.blockWidth, config.columns);
      var blockRows, blockCols := endRow - startRow, endCol - startCol;
      var buf := NewBuffer(config.bands, blockRows, blockCols, bpp);
      ghost var layer := Overlay(data, State().G().ImageFrame(), State().G().BlockFrame(row, col), config.bands);
      ExtractLayer(State(), data, buf[..], row, col);
      CopyBands(config.bands, data, config.rows, config.columns, startRow, startCol, buf, blockRows, blockCols, 0, 0,
                blockRows, blockCols, bpp, layer);
      blockData := buf[..];
    }

    /** The stored blocks put back together; lines that a block's data does not reach stay zero. */
    method GetRawBsq() returns (bsq: seq<byte>)
      requires State().Valid()
      ensures bsq == State().RawBsq()
    {
      var g := config.Blocks();
      var buf := NewBuffer(config.bands, config.rows, config.columns, config.Bpp());
      RawStart(State(), buf[..]);
      for row := 0 to g.GridRows()
        invariant RawDone(State(), buf[..], row, 0)
      {
        for col := 0 to g.GridCols()
          invariant RawDone(State(), buf[..], row, col)
        {
          ghost var was := buf[..];
          if (row, col) in blocks {
            CopyStored(blocks[(row, col)], row, col, buf);
          }
          RawNext(State(), was, buf[..], row, col);
        }
        RawRow(State(), buf[..], row);
      }
      RawFinish(State(), buf[..]);
      bsq := buf[..];
    }

    /** Off level 0 or the grid there is nothing; without a source there are the overrides; over a source on another grid, whatever meets its image too. */
    method HasBlock(r: nat, c: nat, level: nat) returns (result: CodecResult<bool>)
      requires State().Valid()
      ensures result == State().HasBlock(r, c, level)
      ensures level != 0 || !State().InGrid(r, c) ==> result == Ok(false)
      ensures level == 0 && State().InGrid(r, c) && source.None? ==> result == Ok((r, c) in blocks)
      ensures level == 0 && State().InGrid(r, c) && source.Some? && State().SourceConforms() && !State().SameGrid() ==>
                result == Ok((r, c) in blocks || MeetsSource(State(), r, c))
    {
      if State().InGrid(r, c) && source.Some? && State().SourceConforms() {
        CheckIsExact(State(), r, c);
        MeetsExactly(State(), r, c);
      }
      if level != 0 {
        return Ok(false);
      }
      if r >= config.Blocks().GridRows() || c >= config.Blocks().GridCols() {
        return Ok(false);
      }
      if (r, c) in provided {
        return Ok(true);
      }
      if source.Some? {
        if source.value.blockWidth == config.blockWidth && source.value.blockHeight == config.blockHeight {
          return source.value.hasBlock(r, c);
        }
        var assembler := TileAssembler(source.value, config.blockWidth, config.blockHeight);
        return Ok(assembler.HasBlock(r, c));
      }
      return Ok(false);
    }

    method GetBlock(r: nat, c: nat, level: nat, bands: Option<seq<nat>>) returns (result: CodecResult<Block>)
      requires State().Valid() && State().Serves(r, c)
      ensures result == State().GetBlock(r, c, level, bands)
      ensures result.Ok? <==> level == 0 && State().InGrid(r, c) && Readable(State(), r, c)
    {
      if State().InGrid(r, c) {
        ReadSucceeds(State(), r, c);
      }
      if level != 0 {
        return Err(InvalidBlockCoordinates(r, c, level));
      }
      if r >= config.Blocks().GridRows() || c >= config.Blocks().GridCols() {
        return Err(InvalidBlockCoordinates(r, c, level));
      }
      var answer := ReadAllBands(r, c);
      if answer.Err? || bands.None? {
        return answer;
      }
      var all := answer.value;
      var bandSize := if (r, c) in blocks then BandSize32(all.rows, all.cols, config.Bpp())
                      else BandSize(all.rows, all.cols, config.Bpp());
      var extracted := ExtractBands(all.data, bandSize, bands.value);
      return Ok(Block(extracted, |bands.value|, all.rows, all.cols));
    }

    /** The override of block (r, c), else what the source gives. */
    method ReadAllBands(r: nat, c: nat) returns (result: CodecResult<Block>)
      requires State().Valid() && State().InGrid(r, c) && State().Serves(r, c)
      ensures result == State().AllBands(r, c)
    {
      if (r, c) in blocks {
        return Ok(Block(blocks[(r, c)], config.bands, config.Blocks().BlockRows(r), config.Blocks().BlockCols(c)));
      }
      if source.None? {
        return Err(Decode("Block not found"));
      }
      result := ReadSource(r, c);
    }

    /** Block (r, c) as the source has it, retiled and padded to this image's grid. */
    method ReadSource(r: nat, c: nat) returns (result: CodecResult<Block>)
      requires State().Valid() && source.Some? && State().InGrid(r, c) && (r, c) !in blocks && State().Serves(r, c)
      ensures result == State().FromSource(r, c)
    {
      var p := source.value;
      if p.blockWidth == config.blockWidth && p.blockHeight == config.blockHeight && p.InGrid(r, c) {
        return p.getBlock(r, c);
      }
      var blockRows, blockCols := config.Blocks().BlockRows(r), config.Blocks().BlockCols(c);
      var assembler := TileAssembler(p, config.blockWidth, config.blockHeight);
      CheckIsExact(State(), r, c);
      if !assembler.HasBlock(r, c) {
        var buf := NewPadded(config.bands, blockRows, blockCols, pad);
        return Ok(Block(buf[..], config.bands, blockRows, blockCols));
      }
      var answer := assembler.GetOutputTile(r, c);
      if answer.Err? {
        return answer;
      }
      var tile := answer.value;
      if tile.rows == blockRows && tile.cols == blockCols {
        return answer;
      }
      var padded := PadPartialTile(tile, r, c);
      return Ok(Block(padded, config.bands, blockRows, blockCols));
    }

    /** Pads a tile that ends before the block does. */
    method PadPartialTile(tile: Block, r: nat, c: nat) returns (padded: seq<byte>)
      requires State().Valid() && source.Some? && State().InGrid(r, c) && (r, c) !in blocks && State().Serves(r, c)
      requires !State().SameGrid() && State().Assembler().InGrid(r, c) && State().Assembler().Tile(r, c) == Ok(tile)
      ensures padded == State().PadTile(tile, r, c)
    {
      var bpp := |pad|;
      var blockRows, blockCols := config.Blocks().BlockRows(r), config.Blocks().BlockCols(c);
      var buf := NewPadded(config.bands, blockRows, blockCols, pad);
      ghost var layer := Overlay(tile.data, Frame(0, 0, tile.rows, tile.cols * bpp), Frame(0, 0, blockRows, blockCols * bpp), config.bands);
      State().Assembler().Tiles().BlockInside(r, c);
      MulMono(tile.cols, blockCols, bpp);
      CopyBands(config.bands, tile.data, tile.rows, tile.cols, 0, 0, buf, blockRows, blockCols, 0, 0, tile.rows, tile.cols, bpp, layer);
      padded := buf[..];
    }

    /** One line of one band of a stored block. */
    method CopyStoredLine(data: seq<byte>, row: nat, col: nat, band: nat, localRow: nat, buf: array<byte>, ghost was: seq<byte>)
      requires State().Valid() && State().InGrid(row, col) && RawDone(State(), was, row, col)
      requires band < config.bands && localRow < State().G().BlockRows(row)
      requires StoredLayer(State(), data, row, col).Progress(was, buf[..], band, localRow)
      modifies buf
      ensures StoredLayer(State(), data, row, col).Progress(was, buf[..], band, localRow + 1)
    {
      var bpp := config.Bpp();
      State().G().BlockInside(row, col);
      var startRow, startCol := row * config.blockHeight, col * config.blockWidth;
      var endRow, endCol := Min(startRow + config.blockHeight, config.rows), Min(startCol + config.blockWidth, config.columns);
      var blockRows: nat, blockCols: nat := endRow - startRow, endCol - startCol;
      var blockBandSize, bandSize := blockRows * blockCols * bpp, config.rows * config.columns * bpp;
      var srcRowStart := band * blockBandSize + localRow * blockCols * bpp;
      var srcRowEnd := srcRowStart + blockCols * bpp;
      var dstRowStart := band * bandSize + (startRow + localRow) * config.columns * bpp + startCol * bpp;
      var dstRowEnd := dstRowStart + blockCols * bpp;
      StoredOffsets(State(), data, row, col, band, localRow);
      StoredRun(State(), data, was, buf[..], row, col, band, localRow);
      ghost var now := buf[..];
      if srcRowEnd <= |data| && dstRowEnd <= buf.Length {
        CopyFromSlice(buf, dstRowStart, data, srcRowStart, blockCols * bpp);
      }
      StoredLayer(State(), data, row, col).StepRun(was, now, band, localRow);
    }

    /** Copies a stored block into the full image, skipping the lines its data does not reach the end of. */
    method CopyStored(data: seq<byte>, row: nat, col: nat, buf: array<byte>)
      requires State().Valid() && State().InGrid(row, col)
      requires RawDone(State(), buf[..], row, col)
      modifies buf
      ensures buf[..] == StoredLayer(State(), data, row, col).Apply(old(buf[..]))
    {
      State().G().BlockInside(row, col);
      var startRow := row * config.blockHeight;
      var blockRows: nat := Min(startRow + config.blockHeight, config.rows) - startRow;
      ghost var was, layer := buf[..], StoredLayer(State(), data, row, col);
      layer.Start(was);
      for band := 0 to config.bands
        invariant layer.Progress(was, buf[..], band, 0)
      {
        for localRow := 0 to blockRows
          invariant layer.Progress(was, buf[..], band, localRow)
        {
          CopyStoredLine(data, row, col, band, localRow, buf, was);
        }
        layer.NextBand(was, buf[..], band);
      }
      layer.Finish(was, buf[..]);
    }
  }

  /** Appends the requested bands, in order, skipping those past the data. */
  method ExtractBands(data: seq<byte>, bandSize: nat, indices: seq<nat>) returns (extracted: seq<byte>)
    ensures extracted == SelectBands(data, bandSize, indices)
  {
    extracted := [];
    for i := 0 to |indices|
      invariant extracted == SelectBands(data, bandSize, indices[..i])
    {
      var start := indices[i] * bandSize;
      var end := start + bandSize;
      assert indices[..i + 1][..i] == indices[..i];
      if end <= |data| {
        extracted := extracted + data[start..end];
      }
    }
    assert indices[..|indices|] == indices;
  }

  // ----- extraction -----

  /** The blocks before (row, col) in reading order are cut out of the image. */
  ghost predicate CutBefore(config: Config, data: seq<byte>, blocks: map<(nat, nat), seq<byte>>, row: nat, col: nat)
    requires config.Valid()
  {
    forall r: nat, c: nat | config.Blocks().InGrid(r, c) && (r < row || (r == row && c < col)) ::
      (r, c) in blocks && blocks[(r, c)] == config.Extract(data, r, c)
  }

  lemma CutAll(config: Config, data: seq<byte>, blocks: map<(nat, nat), seq<byte>>)
    requires config.Valid() && CutBefore(config, data, blocks, config.Blocks().GridRows(), 0)
    requires forall k | k in blocks :: config.Blocks().InGrid(k.0, k.1)
    ensures blocks == config.Cut(data) && blocks.Keys == config.Keys()
  {
    forall k: (nat, nat)
      ensures k in blocks <==> k in config.Keys()
      ensures k in blocks ==> blocks[k] == config.Extract(data, k.0, k.1)
    {
      assert k == (k.0, k.1);
    }
  }

  /** Cutting a block out of the image is laying the image over it. */
  lemma ExtractLayer(s: ImageState, data: seq<byte>, zeros: seq<byte>, r: nat, c: nat)
    requires s.config.Valid() && s.InGrid(r, c)
    requires |data| == s.config.bands * s.config.rows * s.G().Line()
    ensures var layer := Overlay(data, s.G().ImageFrame(), s.G().BlockFrame(r, c), s.config.bands);
            && !layer.Disjoint() && layer.Fits()
            && layer.Left() == layer.to.left && layer.Right() == layer.to.left + layer.to.width
            && layer.Top() == layer.to.top && layer.Bottom() == layer.to.top + layer.to.height
            && layer.Apply(zeros) == s.config.Extract(data, r, c)
  {
    s.G().BlockInside(r, c);
    var f := s.G().BlockFrame(r, c);
    var layer := Overlay(data, s.G().ImageFrame(), f, s.config.bands);
    forall b: nat, y: nat, j: nat | b < layer.n && y < f.height && j < f.width
      ensures At(layer.Apply(zeros), f.height, f.width, b, y, j) == At(data, s.config.rows, s.G().Line(), b, f.top + y, f.left + j)
    {
      layer.ApplyAt(zeros, b, y, j);
    }
    RenderUnique(layer.Apply(zeros), layer.n, f.height, f.width,
                 (b: nat, y: nat, j: nat) => At(data, s.config.rows, s.G().Line(), b, f.top + y, f.left + j));
  }

  // ----- reassembly -----

  /** A stored block, to be laid over the full image. */
  ghost function StoredLayer(s: ImageState, data: seq<byte>, r: nat, c: nat): Overlay {
    Overlay(s.config.Stored(data, r, c), s.G().BlockFrame(r, c), s.G().ImageFrame(), s.config.bands)
  }

  lemma StoredLayerShape(s: ImageState, data: seq<byte>, r: nat, c: nat)
    requires s.config.Valid() && s.InGrid(r, c)
    ensures var layer := StoredLayer(s, data, r, c);
            && !layer.Disjoint() && layer.Fits()
            && layer.Left() == layer.from.left && layer.Right() == layer.from.left + layer.from.width
            && layer.Top() == layer.from.top && layer.Bottom() == layer.from.top + layer.from.height
  {
    s.G().BlockInside(r, c);
  }

  /** The offset expression with a precomputed band size. */
  lemma BandOffset(h: nat, cols: nat, bpp: nat, b: nat, y: nat, x: nat)
    ensures b * (h * cols * bpp) + y * cols * bpp + x * bpp == Offset(h, cols * bpp, b, y, x * bpp)
  {
    Assoc(b, h * cols, bpp);
    RunOffset(h, cols, bpp, b, y, x);
  }

  lemma StoredOffsets(s: ImageState, data: seq<byte>, r: nat, c: nat, band: nat, line: nat)
    requires s.config.Valid() && s.InGrid(r, c)
    ensures var layer, bpp, rows, cols := StoredLayer(s, data, r, c), s.config.Bpp(), s.G().BlockRows(r), s.G().BlockCols(c);
            && !layer.Disjoint()
            && band * (rows * cols * bpp) + line * cols * bpp == layer.SrcRun(band, line)
            && band * (s.config.rows * s.config.columns * bpp) + (r * s.config.blockHeight + line) * s.config.columns * bpp
               + c * s.config.blockWidth * bpp == layer.DstRun(band, line)
  {
    var layer, bpp, f := StoredLayer(s, data, r, c), s.config.Bpp(), s.G().BlockFrame(r, c);
    StoredLayerShape(s, data, r, c);
    s.G().BlockInside(r, c);
    BandOffset(s.G().BlockRows(r), s.G().BlockCols(c), bpp, band, line, 0);
    BandOffset(s.config.rows, s.config.columns, bpp, band, r * s.config.blockHeight + line, c * s.config.blockWidth);
    assert layer.SrcRun(band, line) == Offset(f.height, f.width, band, line, 0);
    assert layer.DstRun(band, line) == Offset(s.config.rows, s.G().Line(), band, f.top + line, f.left);
  }

  /** Copying a line that the data reaches, or skipping one that it does not, is the layer's step. */
  lemma StoredRun(s: ImageState, data: seq<byte>, was: seq<byte>, now: seq<byte>, r: nat, c: nat, band: nat, line: nat)
    requires s.config.Valid() && s.InGrid(r, c) && RawDone(s, was, r, c)
    requires StoredLayer(s, data, r, c).Progress(was, now, band, line)
    requires band < s.config.bands && line < s.G().BlockRows(r)
    ensures var layer := StoredLayer(s, data, r, c);
            && !layer.Disjoint() && layer.Fits() && layer.Top() + line < layer.Bottom()
            && var from, to, width := layer.SrcRun(band, line), layer.DstRun(band, line), layer.from.width;
            && to + width <= |now|
            && layer.Step(now, band, line) == if from + width <= |data| then Spliced(now, to, data, from, width) else now
  {
    var layer := StoredLayer(s, data, r, c);
    StoredLayerShape(s, data, r, c);
    layer.RunsInside(band, line);
    var from, to, width := layer.SrcRun(band, line), layer.DstRun(band, line), layer.from.width;
    if from + width <= |data| {
      forall t: nat | t < width
        ensures SameAt(layer.src, from, data, from, t)
      {
        StoredByte(s, data, was, now, r, c, band, line, t);
      }
      SplicedFrom(now, to, layer.src, from, data, from, width);
    } else {
      forall t: nat | t < width
        ensures SameAt(layer.src, from, now, to, t)
      {
        StoredByte(s, data, was, now, r, c, band, line, t);
      }
      SplicedFrom(now, to, layer.src, from, now, to, width);
      SplicedSelf(now, to, width);
    }
  }

  lemma StoredByte(s: ImageState, data: seq<byte>, was: seq<byte>, now: seq<byte>, r: nat, c: nat, band: nat, line: nat, t: nat)
    requires s.config.Valid() && s.InGrid(r, c) && RawDone(s, was, r, c)
    requires StoredLayer(s, data, r, c).Progress(was, now, band, line)
    requires band < s.config.bands && line < s.G().BlockRows(r) && t < s.G().BlockFrame(r, c).width
    ensures var layer := StoredLayer(s, data, r, c);
            && !layer.Disjoint()
            && var from, to, width := layer.SrcRun(band, line), layer.DstRun(band, line), layer.from.width;
            && if from + width <= |data| then SameAt(layer.src, from, data, from, t) else SameAt(layer.src, from, now, to, t)
  {
    var layer, f := StoredLayer(s, data, r, c), s.G().BlockFrame(r, c);
    StoredLayerShape(s, data, r, c);
    s.G().BlockInside(r, c);
    layer.RunsInside(band, line);
    RenderAt(s.config.bands, f.height, f.width,
             (b: nat, y: nat, j: nat) => if Offset(f.height, f.width, b, y, 0) + f.width <= |data| then At(data, f.height, f.width, b, y, j) else 0,
             band, line, t);
    s.G().Partition(f.top + line, f.left + t, r, c);
    assert RawHolds(s, was, r, c, band, f.top + line, f.left + t);
    assert layer.Done(was, now, band, line, band, f.top + line, f.left + t);
  }

  predicate Before(s: ImageState, y: nat, j: nat, row: nat, col: nat)
    requires s.config.Valid()
  {
    var owner := s.G().Owner(y, j);
    owner.0 < row || (owner.0 == row && owner.1 < col)
  }

  ghost predicate RawHolds(s: ImageState, buf: seq<byte>, row: nat, col: nat, b: nat, y: nat, j: nat)
    requires s.config.Valid()
  {
    At(buf, s.config.rows, s.G().Line(), b, y, j) == if Before(s, y, j, row, col) then s.RawByte(b, y, j) else 0
  }

  /** The blocks before (row, col) are in place; the rest is still zero. */
  ghost predicate RawDone(s: ImageState, buf: seq<byte>, row: nat, col: nat)
    requires s.config.Valid()
  {
    && |buf| == s.config.bands * s.config.rows * s.G().Line()
    && forall b: nat, y: nat, j: nat | b < s.config.bands && y < s.config.rows && j < s.G().Line() :: RawHolds(s, buf, row, col, b, y, j)
  }

  lemma RawStart(s: ImageState, zeros: seq<byte>)
    requires s.config.Valid() && |zeros| == s.config.bands * s.config.rows * s.G().Line()
    requires forall k | 0 <= k < |zeros| :: zeros[k] == 0
    ensures RawDone(s, zeros, 0, 0)
  {}

  lemma RawNext(s: ImageState, was: seq<byte>, now: seq<byte>, row: nat, col: nat)
    requires s.Valid() && s.InGrid(row, col) && RawDone(s, was, row, col)
    requires now == if (row, col) in s.blocks then StoredLayer(s, s.blocks[(row, col)], row, col).Apply(was) else was
    ensures RawDone(s, now, row, col + 1)
  {
    var next := col + 1;
    forall b: nat, y: nat, j: nat | b < s.config.bands && y < s.config.rows && j < s.G().Line()
      ensures RawHolds(s, now, row, next, b, y, j)
    {
      assert RawHolds(s, was, row, col, b, y, j);
      s.G().Partition(y, j, row, col);
      if (row, col) in s.blocks {
        StoredLayer(s, s.blocks[(row, col)], row, col).ApplyAt(was, b, y, j);
      }
    }
  }

  lemma RawRow(s: ImageState, buf: seq<byte>, row: nat)
    requires s.config.Valid() && RawDone(s, buf, row, s.G().GridCols())
    ensures RawDone(s, buf, row + 1, 0)
  {
    var next := row + 1;
    forall b: nat, y: nat, j: nat | b < s.config.bands && y < s.config.rows && j < s.G().Line()
      ensures RawHolds(s, buf, next, 0, b, y, j)
    {
      assert RawHolds(s, buf, row, s.G().GridCols(), b, y, j);
      s.G().Partition(y, j, s.G().Owner(y, j).0, s.G().Owner(y, j).1);
    }
  }

  lemma RawFinish(s: ImageState, buf: seq<byte>)
    requires s.config.Valid() && RawDone(s, buf, s.G().GridRows(), 0)
    ensures buf == s.RawBsq()
  {
    forall b: nat, y: nat, j: nat | b < s.config.bands && y < s.config.rows && j < s.G().Line()
      ensures At(buf, s.config.rows, s.G().Line(), b, y, j) == s.RawByte(b, y, j)
    {
      assert RawHolds(s, buf, s.G().GridRows(), 0, b, y, j);
      s.G().Partition(y, j, s.G().Owner(y, j).0, s.G().Owner(y, j).1);
    }
    RenderUnique(buf, s.config.bands, s.config.rows, s.G().Line(), (b: nat, y: nat, j: nat) => s.RawByte(b, y, j));
  }
}
