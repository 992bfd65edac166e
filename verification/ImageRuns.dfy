/**
 Runs of writes to the in-memory image, and the agreement of the three ways to read a
 full image back.
 */
module ImageRuns {
  import opened Wrappers
  import opened Bsq
  import opened Overlay
  import opened BlockGrid
  import opened ImageProvider
  import opened TileAssembler
  import opened BufferedImage
  import opened CopyOnWrite
  import Retiling

  datatype Write = OneBlock(r: nat, c: nat, data: seq<byte>) | FullImage(data: seq<byte>)

  function Step(s: ImageState, w: Write): ImageState
    requires s.config.Valid()
  {
    match w
    case OneBlock(r, c, data) => s.SetBlock(r, c, data).0
    case FullImage(data) => s.SetFullImage(data).0
  }

  /** The state after the writes, first to last. */
  function Run(s: ImageState, writes: seq<Write>): (t: ImageState)
    requires s.config.Valid()
    ensures t.config == s.config && t.source == s.source && t.pad == s.pad
  {
    if writes == [] then s else Step(Run(s, writes[..|writes| - 1]), writes[|writes| - 1])
  }

  /** The write is accepted and sets block (r, c). */
  predicate Sets(config: Config, w: Write, r: nat, c: nat)
    requires config.Valid()
  {
    && config.Blocks().InGrid(r, c)
    && match w
       case OneBlock(r', c', _) => (r', c') == (r, c)
       case FullImage(data) => |data| == config.bands * config.rows * config.Blocks().Line()
  }

  /** What it sets the block to. */
  function SetsTo(config: Config, w: Write, r: nat, c: nat): seq<byte> {
    match w
    case OneBlock(_, _, data) => data
    case FullImage(data) => config.Extract(data, r, c)
  }

  /** A single-block write of the block's own size; full images are checked by the program itself. */
  predicate WellSizedWrite(s: ImageState, w: Write)
    requires s.config.Valid()
  {
    match w
    case OneBlock(r, c, data) => s.WellSized(r, c, data)
    case FullImage(_) => true
  }

  lemma StepSets(s: ImageState, w: Write, r: nat, c: nat)
    requires s.Valid()
    ensures Step(s, w).Valid()
    ensures (r, c) in Step(s, w).blocks <==> (r, c) in s.blocks || Sets(s.config, w, r, c)
    ensures Sets(s.config, w, r, c) ==> Step(s, w).blocks[(r, c)] == SetsTo(s.config, w, r, c)
    ensures !Sets(s.config, w, r, c) && (r, c) in s.blocks ==> Step(s, w).blocks[(r, c)] == s.blocks[(r, c)]
  {}

  /** The block-map invariant holds in every reachable state. */
  lemma {:induction false} RunValid(s: ImageState, writes: seq<Write>)
    requires s.Valid()
    ensures Run(s, writes).Valid()
  {
    if writes != [] {
      RunValid(s, writes[..|writes| - 1]);
      StepSets(Run(s, writes[..|writes| - 1]), writes[|writes| - 1], 0, 0);
    }
  }

  /** A block holds what the last write that set it says, or what it held before the run. */
  lemma {:induction false} LastWriteWins(s: ImageState, writes: seq<Write>, r: nat, c: nat, k: int)
    requires s.Valid() && -1 <= k < |writes|
    requires k >= 0 ==> Sets(s.config, writes[k], r, c)
    requires forall i | k < i < |writes| :: !Sets(s.config, writes[i], r, c)
    ensures k >= 0 ==> (r, c) in Run(s, writes).blocks && Run(s, writes).blocks[(r, c)] == SetsTo(s.config, writes[k], r, c)
    ensures k < 0 ==> ((r, c) in Run(s, writes).blocks <==> (r, c) in s.blocks)
    ensures k < 0 && (r, c) in s.blocks ==> Run(s, writes).blocks[(r, c)] == s.blocks[(r, c)]
  {
    if writes != [] {
      var rest, last := writes[..|writes| - 1], writes[|writes| - 1];
      RunValid(s, rest);
      StepSets(Run(s, rest), last, r, c);
      if k < |rest| {
        LastWriteWins(s, rest, r, c, k);
      }
    }
  }

  /** The writes of a run that set a block give it its size. */
  predicate SizesFit(s: ImageState, writes: seq<Write>, r: nat, c: nat)
    requires s.config.Valid()
  {
    forall w | w in writes && Sets(s.config, w, r, c) :: WellSizedWrite(s, w)
  }

  /** If the writes that set a block have its size, so has the override that they leave. */
  lemma {:induction false} RunWellSized(s: ImageState, writes: seq<Write>, r: nat, c: nat)
    requires s.Valid() && SizesFit(s, writes, r, c)
    requires (r, c) in s.blocks ==> s.WellSized(r, c, s.blocks[(r, c)])
    ensures (r, c) in Run(s, writes).blocks ==> s.WellSized(r, c, Run(s, writes).blocks[(r, c)])
  {
    if writes != [] {
      var rest, last := writes[..|writes| - 1], writes[|writes| - 1];
      assert forall w | w in rest :: w in writes;
      assert last in writes;
      RunWellSized(s, rest, r, c);
      RunValid(s, rest);
      StepSets(Run(s, rest), last, r, c);
    }
  }

  /** A write is applied exactly when it is answered with success: a block of the grid, or a full image of the right length. */
  lemma WriteAnswers(s: ImageState, r: nat, c: nat, data: seq<byte>)
    requires s.Valid()
    ensures s.SetBlock(r, c, data).1.Ok? <==> r * s.config.blockHeight < s.config.rows && c * s.config.blockWidth < s.config.columns
    ensures s.SetBlock(r, c, data).1.Ok? <==> Sets(s.config, OneBlock(r, c, data), r, c)
    ensures s.SetBlock(r, c, data).1.Err? ==> s.SetBlock(r, c, data) == (s, Err(InvalidBlockCoordinates(r, c, 0)))
    ensures s.SetFullImage(data).1.Ok? <==> |data| == s.config.bands * s.config.rows * (s.config.columns * s.config.Bpp())
    ensures s.SetFullImage(data).1.Err? ==> s.SetFullImage(data).0 == s
    ensures s.SetFullImage(data).1.Ok? && s.InGrid(r, c) ==> Sets(s.config, FullImage(data), r, c)
  {
    CeilDivCounts(s.config.rows, s.config.blockHeight, r);
    CeilDivCounts(s.config.columns, s.config.blockWidth, c);
  }

  /** The answer is a read of block (r, c) of the copy-on-write image: all bands, or those asked for. */
  ghost predicate ReadsCow(t: ImageState, r: nat, c: nat, bands: Option<seq<nat>>, blk: Block)
    requires t.Valid()
  {
    && blk.rows == t.G().BlockRows(r) && blk.cols == t.G().BlockCols(c)
    && match bands
       case None => blk.data == CowBlock(t, r, c)
       case Some(indices) => blk.data == SelectBands(CowBlock(t, r, c), BandSize(blk.rows, blk.cols, t.config.Bpp()), indices)
  }

  /**
   Copy-on-write over whole runs: after any writes, those to the block of its size, reading a block of the grid
   succeeds exactly when some write or the first state overrides it, or the source serves all that
   it needs; and then it reads the copy-on-write image.
   */
  lemma ReadAfterRun(s: ImageState, writes: seq<Write>, t: ImageState, r: nat, c: nat, bands: Option<seq<nat>>)
    requires s.Valid() && SizesFit(s, writes, r, c) && ((r, c) in s.blocks ==> s.WellSized(r, c, s.blocks[(r, c)]))
    requires t == Run(s, writes) && t.Valid() && t.InGrid(r, c) && t.Serves(r, c)
    requires Direct(t, r, c) ==> t.source.value.Clips() && EdgesAgree(t, r, c)
    requires bands.Some? && (r, c) in t.blocks ==> PixelsFit(t, r, c)
    ensures t.GetBlock(r, c, 0, bands).Ok? <==> Readable(t, r, c)
    ensures Readable(t, r, c) ==> ReadsCow(t, r, c, bands, t.GetBlock(r, c, 0, bands).value)
    ensures (r, c) in t.blocks <==> (r, c) in s.blocks || exists k :: 0 <= k < |writes| && Sets(s.config, writes[k], r, c)
  {
    RunWellSized(s, writes, r, c);
    AllBandsIsCow(t, r, c);
    OverriddenAfterRun(s, writes, r, c);
    if bands.Some? && (r, c) in t.blocks {
      PixelsThatWrap(t.G().BlockRows(r), t.G().BlockCols(c), t.config.Bpp());
    }
  }

  /** A block is overridden after a run exactly when it was before, or some write of the run set it. */
  lemma {:induction false} OverriddenAfterRun(s: ImageState, writes: seq<Write>, r: nat, c: nat)
    requires s.Valid()
    ensures (r, c) in Run(s, writes).blocks <==> (r, c) in s.blocks || exists k :: 0 <= k < |writes| && Sets(s.config, writes[k], r, c)
  {
    if writes != [] {
      var front, last := writes[..|writes| - 1], writes[|writes| - 1];
      OverriddenAfterRun(s, front, r, c);
      RunValid(s, front);
      StepSets(Run(s, front), last, r, c);
      assert forall k | 0 <= k < |front| :: writes[k] == front[k];
    }
  }

  /** The block has fewer than 2^32 pixels. */
  predicate PixelsFit(t: ImageState, r: nat, c: nat) { t.G().BlockRows(r) * t.G().BlockCols(c) < U32_LIMIT }

  /** A pixel count that does not fit is cut down, and with it every band that is selected. */
  lemma PixelsThatWrap(rows: nat, cols: nat, bpp: nat)
    requires bpp > 0
    ensures BandSize32(rows, cols, bpp) == BandSize(rows, cols, bpp) <==> rows * cols < U32_LIMIT
  {
    if rows * cols >= U32_LIMIT {
      MulLess(rows * cols % U32_LIMIT, rows * cols, bpp);
    }
  }

  /**
   Without a source, and off the grid, the image reports a block present exactly when reading it
   succeeds. Over a source on another grid it does so exactly for the blocks that are overridden, and
   those that meet the source's image and get all they need from it.
   */
  lemma HasBlockIffReadable(s: ImageState, r: nat, c: nat, bands: Option<seq<nat>>)
    requires s.Valid() && s.Serves(r, c)
    ensures s.source.None? || !s.InGrid(r, c) ==> s.HasBlock(r, c, 0) == Ok(s.GetBlock(r, c, 0, bands).Ok?)
    ensures s.InGrid(r, c) && s.source.Some? && !s.SameGrid() ==>
              (s.HasBlock(r, c, 0) == Ok(s.GetBlock(r, c, 0, bands).Ok?)
               <==> (r, c) in s.blocks || (MeetsSource(s, r, c) && SourceAnswers(s, r, c)))
  {
    if s.InGrid(r, c) && (r, c) !in s.blocks && s.source.Some? && !s.SameGrid() {
      HasBlockMeans(s, r, c);
    }
  }

  // ----- three-way agreement -----

  /** The stored blocks of a full image, put back together, are the full image. */
  lemma RawIsWhole(s: ImageState, d: seq<byte>)
    requires s.config.Valid() && |d| == s.config.bands * s.config.rows * s.G().Line()
    requires s.blocks == s.config.Cut(d)
    ensures s.RawBsq() == d
  {
    forall b: nat, y: nat, j: nat | b < s.config.bands && y < s.config.rows && j < s.G().Line()
      ensures At(d, s.config.rows, s.G().Line(), b, y, j) == s.RawByte(b, y, j)
    {
      CutByte(s, d, b, y, j);
    }
    RenderUnique(d, s.config.bands, s.config.rows, s.G().Line(), (b: nat, y: nat, j: nat) => s.RawByte(b, y, j));
  }

  /**
   Byte by byte: the stored image holds what the block of a position holds there, if a block is stored
   and its data reaches the end of the line in question, and zero otherwise, whatever the length of the data.
   */
  lemma RawHoldsLines(s: ImageState, b: nat, y: nat, j: nat)
    requires s.Valid() && b < s.config.bands && y < s.config.rows && j < s.G().Line()
    ensures var k := s.G().Owner(y, j);
            var f := s.G().BlockFrame(k.0, k.1);
            && f.Contains(y, j)
            && At(s.RawBsq(), s.config.rows, s.G().Line(), b, y, j)
               == if k in s.blocks && Offset(f.height, f.width, b, y - f.top, f.width) <= |s.blocks[k]|
                  then s.blocks[k][Offset(f.height, f.width, b, y - f.top, j - f.left)] else 0
  {
    var k := s.G().Owner(y, j);
    var f := s.G().BlockFrame(k.0, k.1);
    s.G().Partition(y, j, k.0, k.1);
    RenderAt(s.config.bands, s.config.rows, s.G().Line(), (b: nat, y: nat, j: nat) => s.RawByte(b, y, j), b, y, j);
    if k in s.blocks {
      var block := s.blocks[k];
      RenderAt(s.config.bands, f.height, f.width,
               (b: nat, y: nat, j: nat) => if Offset(f.height, f.width, b, y, 0) + f.width <= |block| then At(block, f.height, f.width, b, y, j) else 0,
               b, y - f.top, j - f.left);
    }
  }

  lemma CutByte(s: ImageState, d: seq<byte>, b: nat, y: nat, j: nat)
    requires s.config.Valid() && s.blocks == s.config.Cut(d)
    requires b < s.config.bands && y < s.config.rows && j < s.G().Line()
    ensures var k := s.G().Owner(y, j);
            && k in s.blocks && s.G().BlockFrame(k.0, k.1).Contains(y, j)
            && s.G().BlockFrame(k.0, k.1).Read(s.blocks[k], b, y, j) == At(d, s.config.rows, s.G().Line(), b, y, j)
            && s.RawByte(b, y, j) == At(d, s.config.rows, s.G().Line(), b, y, j)
  {
    var k := s.G().Owner(y, j);
    var f := s.G().BlockFrame(k.0, k.1);
    s.G().Partition(y, j, k.0, k.1);
    s.G().BlockInside(k.0, k.1);
    var block := s.config.Extract(d, k.0, k.1);
    RenderAt(s.config.bands, f.height, f.width,
             (b: nat, y: nat, j: nat) => At(d, s.config.rows, s.G().Line(), b, f.top + y, f.left + j), b, y - f.top, j - f.left);
    RenderAt(s.config.bands, f.height, f.width,
             (b: nat, y: nat, j: nat) => if Offset(f.height, f.width, b, y, 0) + f.width <= |block| then At(block, f.height, f.width, b, y, j) else 0,
             b, y - f.top, j - f.left);
    RunInside(s.config.bands, f.height, f.width, b, y - f.top, 0, f.width);
  }

  /** Seen as a source, an image whose blocks are all set serves blocks of the right shape, and depicts what it was set to. */
  lemma SetImageDepicts(s: ImageState, d: seq<byte>)
    requires s.Valid() && |d| == s.config.bands * s.config.rows * s.G().Line()
    requires s.blocks == s.config.Cut(d) && CeilDiv(s.config.bitsPerPixel, 8) == s.config.Bpp()
    ensures s.ServesAll()
    ensures var p := s.AsProvider();
            && p.WellFormed() && p.Conforms() && p.Clips() && p.Depicts(d)
            && forall r: nat, c: nat :: p.hasBlock(r, c) == Ok(p.InGrid(r, c)) && (p.InGrid(r, c) ==> p.getBlock(r, c).Ok?)
  {
    AllOverridden(s, d);
    var p := s.AsProvider();
    assert p.Blocks() == s.G();
    forall r: nat, c: nat | p.InGrid(r, c)
      ensures p.getBlock(r, c) == Ok(Block(s.config.Extract(d, r, c), s.config.bands, s.G().BlockRows(r), s.G().BlockCols(c)))
    {
      assert (r, c) in s.config.Keys();
    }
    forall b: nat, y: nat, j: nat | b < p.bands && y < p.rows && j < p.Blocks().Line()
      ensures p.Sample(b, y, j) == At(d, p.rows, p.Blocks().Line(), b, y, j)
    {
      SetImageSample(s, d, b, y, j);
    }
  }

  /** Every override has its block's size, and where the grids match the source's edges agree with the image's. */
  ghost predicate Regular(s: ImageState)
    requires s.Valid()
  {
    && (forall r: nat, c: nat | (r, c) in s.blocks :: s.WellSized(r, c, s.blocks[(r, c)]))
    && forall r: nat, c: nat | s.InGrid(r, c) && Direct(s, r, c) :: s.source.value.Clips() && EdgesAgree(s, r, c)
  }

  /**
   Seen as a source for others, a buffered image is again one that clips its blocks, serves exactly the
   readable ones, and shows the copy-on-write image in them.
   */
  lemma CowAsSource(s: ImageState)
    requires s.Valid() && s.ServesAll() && Regular(s) && CeilDiv(s.config.bitsPerPixel, 8) == s.config.Bpp()
    ensures var p := s.AsProvider();
            && p.WellFormed() && p.Conforms() && p.Clips()
            && p.columns == s.config.columns && p.rows == s.config.rows && p.bands == s.config.bands && p.Blocks() == s.G()
            && forall r: nat, c: nat | s.InGrid(r, c) :: p.getBlock(r, c).Ok? <==> Readable(s, r, c)
  {
    var p := s.AsProvider();
    assert p.Blocks() == s.G();
    forall r: nat, c: nat | p.InGrid(r, c)
      ensures p.getBlock(r, c).Ok? <==> Readable(s, r, c)
      ensures p.getBlock(r, c).Ok? ==>
                p.getBlock(r, c) == Ok(Block(CowBlock(s, r, c), s.config.bands, s.G().BlockRows(r), s.G().BlockCols(c)))
    {
      assert s.Serves(r, c);
      AllBandsIsCow(s, r, c);
    }
  }

  /** Byte by byte: where its block is readable, the source so seen samples the copy-on-write image. */
  lemma CowSampled(s: ImageState, b: nat, y: nat, j: nat)
    requires s.Valid() && s.ServesAll() && Regular(s) && CeilDiv(s.config.bitsPerPixel, 8) == s.config.Bpp()
    requires b < s.config.bands && y < s.config.rows && j < s.G().Line() && s.InGrid(s.G().Owner(y, j).0, s.G().Owner(y, j).1)
    requires Readable(s, s.G().Owner(y, j).0, s.G().Owner(y, j).1)
    ensures s.AsProvider().WellFormed() && s.AsProvider().Sample(b, y, j) == Cow(s, b, y, j)
  {
    var (r, c) := s.G().Owner(y, j);
    var f := s.G().BlockFrame(r, c);
    assert s.Serves(r, c);
    AllBandsIsCow(s, r, c);
    s.G().Partition(y, j, r, c);
    s.G().PlaceInOwner(y, j);
    RenderAt(s.config.bands, f.height, f.width, (b: nat, y: nat, j: nat) => Cow(s, b, f.top + y, f.left + j), b, y - f.top, j - f.left);
  }

  /** Once a full image is set, every block is overridden and nothing is asked of a source. */
  lemma AllOverridden(s: ImageState, d: seq<byte>)
    requires s.Valid() && s.blocks == s.config.Cut(d)
    ensures s.ServesAll()
  {
    forall r: nat, c: nat ensures s.Serves(r, c) {
      assert s.InGrid(r, c) ==> (r, c) in s.config.Keys();
    }
  }

  lemma SetImageSample(s: ImageState, d: seq<byte>, b: nat, y: nat, j: nat)
    requires s.Valid() && s.ServesAll() && CeilDiv(s.config.bitsPerPixel, 8) == s.config.Bpp()
    requires s.blocks == s.config.Cut(d)
    requires b < s.config.bands && y < s.config.rows && j < s.G().Line()
    ensures s.AsProvider().WellFormed()
    ensures s.AsProvider().Sample(b, y, j) == At(d, s.config.rows, s.G().Line(), b, y, j)
  {
    var k := s.G().Owner(y, j);
    CutByte(s, d, b, y, j);
    s.G().PlaceInOwner(y, j);
  }

  /**
   After setting the full image d, reading the raw image and reassembling the image through the
   assembler both give d back, for every block size, when the bits per pixel match the pixel type.
   */
  lemma ThreeWayAgreement(s: ImageState, d: seq<byte>)
    requires s.Valid() && 0 < s.config.columns && 0 < s.config.rows
    requires |d| == s.config.bands * s.config.rows * s.G().Line()
    requires CeilDiv(s.config.bitsPerPixel, 8) == s.config.Bpp()
    ensures var t := s.SetFullImage(d).0;
            && t.Valid() && t.ServesAll() && t.RawBsq() == d
            && var p := t.AsProvider();
            && p.WellFormed() && p.Conforms()
            && TileAssembler(p, p.columns, p.rows).Tile(0, 0) == Ok(Block(d, p.bands, p.rows, p.columns))
  {
    var t := s.SetFullImage(d).0;
    AllOverridden(t, d);
    var p := t.AsProvider();
    var a := TileAssembler(p, p.columns, p.rows);
    RawIsWhole(t, d);
    SetImageDepicts(t, d);
    CeilDivCounts(p.rows, p.rows, 0);
    CeilDivCounts(p.columns, p.columns, 0);
    assert p.Blocks() == t.G();
    forall r: nat, c: nat | p.InGrid(r, c)
      ensures p.getBlock(r, c).Ok?
    {
      assert (r, c) in t.config.Keys();
    }
    a.BlocksMeetTile(0, 0);
    forall row: nat, col: nat | a.Needs(0, 0, row, col) ensures a.ServedAt(row, col) {
      a.NeedsExactly(0, 0, row, col);
      assert p.InGrid(row, col);
    }
    a.TileSucceeds(0, 0);
    match a.Tile(0, 0)
    case Ok(tile) => Retiling.ReassemblyIsWhole(p, d, tile);
  }
}
