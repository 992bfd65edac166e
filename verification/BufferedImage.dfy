/**
 The in-memory image: blocks set by the caller, over an optional source that is read on
 demand. `ImageState` says what each operation computes; the class updates its maps in place.
 */
module BufferedImage {
  import opened Wrappers
  import opened Bsq
  import opened Overlay
  import opened BlockGrid
  import opened ImageProvider
  import opened TileAssembler
  import Retiling

  datatype PixelType = UInt8 | UInt16 | UInt32 | Int8 | Int16 | Int32 | Float32 | Float64 {
    function BytesPerPixel(): (n: nat)
      ensures n > 0
    {
      match this
      case UInt8 | Int8 => 1
      case UInt16 | Int16 => 2
      case UInt32 | Int32 | Float32 => 4
      case Float64 => 8
    }
  }

  /** The width of a sample is the number of bits in the name of its type. */
  lemma PixelWidths()
    ensures 8 * UInt8.BytesPerPixel() == 8 * Int8.BytesPerPixel() == 8
    ensures 8 * UInt16.BytesPerPixel() == 8 * Int16.BytesPerPixel() == 16
    ensures 8 * UInt32.BytesPerPixel() == 8 * Int32.BytesPerPixel() == 8 * Float32.BytesPerPixel() == 32
    ensures 8 * Float64.BytesPerPixel() == 64
  {}

  datatype Config = Config(columns: nat, rows: nat, bands: nat, blockWidth: nat, blockHeight: nat,
                           pixelType: PixelType, bitsPerPixel: nat)
  {
    predicate Valid() {
      && 0 < blockWidth && 0 < blockHeight && 0 < bitsPerPixel
      && columns < U32_LIMIT && rows < U32_LIMIT
    }

    function Bpp(): nat { pixelType.BytesPerPixel() }

    function Blocks(): (g: Grid)
      ensures Valid() ==> g.Valid()
    {
      Grid(columns, rows, blockWidth, blockHeight, Bpp())
    }

    /** Block (r, c) of a full image. */
    function Extract(data: seq<byte>, r: nat, c: nat): seq<byte> {
      var f := Blocks().BlockFrame(r, c);
      Render(bands, f.height, f.width,
             (b: nat, y: nat, j: nat) => At(data, rows, Blocks().Line(), b, f.top + y, f.left + j))
    }

    /** The blocks of the grid. */
    function Keys(): set<(nat, nat)>
      requires Valid()
    {
      set r: nat, c: nat | r < Blocks().GridRows() && c < Blocks().GridCols() :: (r, c)
    }

    /** A full image, cut into its blocks. */
    function Cut(data: seq<byte>): map<(nat, nat), seq<byte>>
      requires Valid()
    {
      map k | k in Keys() :: Extract(data, k.0, k.1)
    }

    /** The bytes a stored block contributes: the lines its data reaches to the end of, and zeros for the others. */
    function Stored(data: seq<byte>, r: nat, c: nat): seq<byte> {
      var f := Blocks().BlockFrame(r, c);
      Render(bands, f.height, f.width,
             (b: nat, y: nat, j: nat) => if Offset(f.height, f.width, b, y, 0) + f.width <= |data| then At(data, f.height, f.width, b, y, j) else 0)
    }
  }

  /** Band number `band` of a buffer, nothing if the buffer ends before it does. */
  function BandOf(data: seq<byte>, bandSize: nat, band: nat): seq<byte> {
    if band * bandSize + bandSize <= |data| then data[band * bandSize..band * bandSize + bandSize] else []
  }

  /** The bands of `data` named by `indices`, in order; an index past the data is skipped. */
  function SelectBands(data: seq<byte>, bandSize: nat, indices: seq<nat>): seq<byte> {
    if indices == [] then []
    else
      var band := indices[|indices| - 1];
      SelectBands(data, bandSize, indices[..|indices| - 1]) + BandOf(data, bandSize, band)
  }

  /** The size of a band when the number of pixels is kept in 32 bits. */
  function BandSize32(rows: nat, cols: nat, bpp: nat): nat { rows * cols % U32_LIMIT * bpp }

  datatype ImageState = ImageState(config: Config, blocks: map<(nat, nat), seq<byte>>, provided: set<(nat, nat)>,
                                   source: Option<ImageProvider>, pad: seq<byte>)
  {
    function G(): Grid { config.Blocks() }

    predicate InGrid(r: nat, c: nat) requires config.Valid() { G().InGrid(r, c) }

    /** The block map invariant. */
    ghost predicate Valid() {
      && config.Valid() && |pad| == config.Bpp()
      && provided == blocks.Keys
      && forall k | k in blocks :: InGrid(k.0, k.1)
    }

    /** Data of the right length for block (r, c). */
    predicate WellSized(r: nat, c: nat, data: seq<byte>) {
      |data| == config.bands * G().BlockRows(r) * G().BlockFrame(r, c).width
    }

    /** The source keeps its contract, and has this image's bands and pixel width. */
    ghost predicate SourceConforms()
      requires source.Some?
    {
      var p := source.value;
      && p.WellFormed() && p.Conforms() && p.bands == config.bands && p.Bpp() == config.Bpp()
      && p.columns < U32_LIMIT && p.rows < U32_LIMIT
    }

    /** Retiled to this image's grid, tile (r, c) of the source is no larger than block (r, c). */
    predicate TileInBlock(r: nat, c: nat)
      requires source.Some?
    {
      && Assembler().Tiles().BlockRows(r) <= G().BlockRows(r)
      && Assembler().Tiles().BlockCols(c) <= G().BlockCols(c)
    }

    /** What reading block (r, c) asks of the source: nothing if the block is overridden, otherwise its contract, and a tile that fits unless the grids agree. */
    ghost predicate Serves(r: nat, c: nat)
      requires config.Valid()
    {
      InGrid(r, c) && (r, c) !in blocks && source.Some? ==> SourceConforms() && (SameGrid() || TileInBlock(r, c))
    }

    ghost predicate ServesAll()
      requires config.Valid()
    {
      forall r: nat, c: nat :: Serves(r, c)
    }

    /** On each axis the source ends no later than the image, or the image ends with a whole block. */
    predicate TilesFit()
      requires source.Some?
    {
      && AxisFits(source.value.columns, config.columns, config.blockWidth)
      && AxisFits(source.value.rows, config.rows, config.blockHeight)
    }

    predicate SameGrid()
      requires source.Some?
    {
      source.value.blockWidth == config.blockWidth && source.value.blockHeight == config.blockHeight
    }

    // ----- writing -----

    function SetBlock(r: nat, c: nat, data: seq<byte>): (ImageState, CodecResult<()>)
      requires config.Valid()
    {
      if !InGrid(r, c) then (this, Err(InvalidBlockCoordinates(r, c, 0)))
      else (this.(blocks := blocks[(r, c) := data], provided := provided + {(r, c)}), Ok(()))
    }

    function SetFullImage(data: seq<byte>): (ImageState, CodecResult<()>)
      requires config.Valid()
    {
      if |data| != config.bands * config.rows * G().Line() then (this, Err(Decode("Data size mismatch")))
      else
        (this.(blocks := config.Cut(data), provided := config.Keys()), Ok(()))
    }

    // ----- reading -----

    /** A block filled with the pad pixel. */
    function Padding(r: nat, c: nat): seq<byte>
      requires |pad| == config.Bpp()
    {
      Render(config.bands, G().BlockRows(r), G().BlockFrame(r, c).width, (b: nat, y: nat, j: nat) => pad[j % config.Bpp()])
    }

    /** The assembler that presents the source on this image's grid. */
    function Assembler(): TileAssembler
      requires source.Some?
    {
      TileAssembler(source.value, config.blockWidth, config.blockHeight)
    }

    /** A tile smaller than the block, laid over padding from the block's first pixel on. */
    function PadTile(tile: Block, r: nat, c: nat): seq<byte>
      requires |pad| == config.Bpp()
    {
      Overlay(tile.data, Frame(0, 0, tile.rows, tile.cols * config.Bpp()),
              Frame(0, 0, G().BlockRows(r), G().BlockFrame(r, c).width), config.bands).Apply(Padding(r, c))
    }

    function FromSource(r: nat, c: nat): CodecResult<Block>
      requires Valid() && source.Some? && InGrid(r, c) && (r, c) !in blocks && Serves(r, c)
    {
      if SameGrid() && source.value.InGrid(r, c) then source.value.getBlock(r, c)
      else if !Assembler().HasBlock(r, c) then
        Ok(Block(Padding(r, c), config.bands, G().BlockRows(r), G().BlockCols(c)))
      else
        match Assembler().Tile(r, c)
        case Err(e) => Err(e)
        case Ok(tile) =>
          if tile.rows == G().BlockRows(r) && tile.cols == G().BlockCols(c) then Ok(tile)
          else Ok(Block(PadTile(tile, r, c), config.bands, G().BlockRows(r), G().BlockCols(c)))
    }

    /** Block (r, c) of the grid with all its bands: the override, else what the source gives. */
    function AllBands(r: nat, c: nat): CodecResult<Block>
      requires Valid() && InGrid(r, c) && Serves(r, c)
    {
      if (r, c) in blocks then Ok(Block(blocks[(r, c)], config.bands, G().BlockRows(r), G().BlockCols(c)))
      else if source.Some? then FromSource(r, c)
      else Err(Decode("Block not found"))
    }

    /** The band size used to select bands; for an override it goes through a 32-bit product. */
    function SelectionBandSize(r: nat, c: nat, rows: nat, cols: nat): nat {
      if (r, c) in blocks then BandSize32(rows, cols, config.Bpp()) else BandSize(rows, cols, config.Bpp())
    }

    function GetBlock(r: nat, c: nat, level: nat, bands: Option<seq<nat>>): CodecResult<Block>
      requires Valid() && Serves(r, c)
    {
      if level != 0 || !InGrid(r, c) then Err(InvalidBlockCoordinates(r, c, level))
      else
        match AllBands(r, c)
        case Err(e) => Err(e)
        case Ok(blk) =>
          if bands.None? then Ok(blk)
          else Ok(Block(SelectBands(blk.data, SelectionBandSize(r, c, blk.rows, blk.cols), bands.value), |bands.value|, blk.rows, blk.cols))
    }

    function HasBlock(r: nat, c: nat, level: nat): CodecResult<bool>
      requires config.Valid()
    {
      if level != 0 || !InGrid(r, c) then Ok(false)
      else if (r, c) in provided then Ok(true)
      else if source.None? then Ok(false)
      else if SameGrid() then source.value.hasBlock(r, c)
      else Ok(Assembler().HasBlock(r, c))
    }

    /** Byte (b, y, j) of the stored image: its block's, or 0 where no block is stored. */
    function RawByte(b: nat, y: nat, j: nat): byte
      requires config.Valid()
    {
      var k := G().Owner(y, j);
      if k in blocks && G().BlockFrame(k.0, k.1).Contains(y, j)
      then G().BlockFrame(k.0, k.1).Read(config.Stored(blocks[k], k.0, k.1), b, y, j) else 0
    }

    function RawBsq(): seq<byte>
      requires config.Valid()
    {
      Render(config.bands, config.rows, G().Line(), (b: nat, y: nat, j: nat) => RawByte(b, y, j))
    }

    /** This image as a source for others. */
    function AsProvider(): ImageProvider
      requires Valid() && ServesAll()
    {
      ImageProvider(config.columns, config.rows, config.bands, config.blockWidth, config.blockHeight, config.bitsPerPixel,
                    (r: nat, c: nat) => GetBlock(r, c, 0, None), (r: nat, c: nat) => HasBlock(r, c, 0))
    }
  }

  // ----- lemmas for the copying loops -----

  /**
   Where the source ends, the geometry check says so: the products of an in-grid request fit in 32
   bits. Both callers of the check look at the grid first, so a product that wraps around, as in
   `Retiling.HasBlockWraps`, does not arise inside the buffered image.
   */
  lemma CheckIsExact(s: ImageState, r: nat, c: nat)
    requires s.Valid() && s.source.Some? && s.SourceConforms() && s.InGrid(r, c)
    ensures s.Assembler().HasBlock(r, c) <==> s.Assembler().InGrid(r, c)
  {
    s.G().BlockInside(r, c);
    Retiling.HasBlockIsExact(s.Assembler(), r, c);
  }

  lemma TileFits(s: ImageState, r: nat, c: nat)
    requires s.Valid() && s.source.Some? && s.InGrid(r, c)
    requires s.TilesFit()
    ensures s.TileInBlock(r, c)
  {
    CeilDivCounts(s.config.rows, s.config.blockHeight, r);
    CeilDivCounts(s.config.columns, s.config.blockWidth, c);
    ClipFits(s.source.value.rows, s.config.rows, s.config.blockHeight, r);
    ClipFits(s.source.value.columns, s.config.columns, s.config.blockWidth, c);
  }

  lemma ModShift(q: nat, d: nat, j: nat)
    requires d > 0
    ensures (q * d + j) % d == j % d
  {
    assert q * d + j == (q + j / d) * d + j % d;
    DivUnique(q + j / d, d, j % d);
  }

  /** Filling a buffer pixel by pixel puts the pad pixel's bytes in every pixel of every line. */
  lemma FillIsPadding(buf: seq<byte>, n: nat, h: nat, cols: nat, pad: seq<byte>)
    requires |pad| > 0 && |buf| == n * h * (cols * |pad|)
    requires forall i: nat | i < |buf| :: buf[i] == pad[i % |pad|]
    ensures buf == Render(n, h, cols * |pad|, (b: nat, y: nat, j: nat) => pad[j % |pad|])
  {
    var w := cols * |pad|;
    forall b: nat, y: nat, j: nat | b < n && y < h && j < w
      ensures At(buf, h, w, b, y, j) == pad[j % |pad|]
    {
      RunInside(n, h, w, b, y, j, 1);
      Assoc(b * h + y, cols, |pad|);
      ModShift((b * h + y) * cols, |pad|, j);
    }
    RenderUnique(buf, n, h, w, (b: nat, y: nat, j: nat) => pad[j % |pad|]);
  }

  /** One more pixel filled. */
  lemma ChunkFilled(was: seq<byte>, now: seq<byte>, pad: seq<byte>, k: nat)
    requires |pad| > 0 && (k + 1) * |pad| <= |was|
    requires forall i: nat | i < k * |pad| :: was[i] == pad[i % |pad|]
    requires now == Spliced(was, k * |pad|, pad, 0, |pad|)
    ensures forall i: nat | i < (k + 1) * |pad| :: now[i] == pad[i % |pad|]
  {
    forall i: nat | i < (k + 1) * |pad|
      ensures now[i] == pad[i % |pad|]
    {
      if k * |pad| <= i {
        DivUnique(k, |pad|, i - k * |pad|);
      }
    }
  }

  /** Writes the pad pixel over every pixel of the buffer. */
  method FillPixels(buf: array<byte>, pad: seq<byte>, chunks: nat)
    requires |pad| > 0 && buf.Length == chunks * |pad|
    modifies buf
    ensures forall i: nat | i < buf.Length :: buf[i] == pad[i % |pad|]
  {
    for k := 0 to chunks
      invariant k * |pad| <= buf.Length
      invariant forall i: nat | i < k * |pad| :: buf[..][i] == pad[i % |pad|]
    {
      MulMono(k + 1, chunks, |pad|);
      ghost var was := buf[..];
      CopyFromSlice(buf, k * |pad|, pad, 0, |pad|);
      ChunkFilled(was, buf[..], pad, k);
    }
  }

  /** Allocates a zeroed buffer and, unless the pad pixel is zero, fills it pixel by pixel. */
  method NewPadded(n: nat, h: nat, cols: nat, pad: seq<byte>) returns (buf: array<byte>)
    requires |pad| > 0
    ensures fresh(buf)
    ensures buf[..] == Render(n, h, cols * |pad|, (b: nat, y: nat, j: nat) => pad[j % |pad|])
  {
    buf := NewBuffer(n, h, cols, |pad|);
    if exists b | b in pad :: b != 0 {
      Assoc(n * h, cols, |pad|);
      FillPixels(buf, pad, n * h * cols);
    } else {
      assert forall k: nat | k < |pad| :: pad[k] in pad;
    }
    FillIsPadding(buf[..], n, h, cols, pad);
  }
}
