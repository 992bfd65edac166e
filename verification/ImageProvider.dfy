/**
 Blocked image sources. A provider answers block requests at resolution level 0
 with all bands; its answers are an arbitrary function, so a provider may fail on
 any block and may pad its edge blocks or clip them to the image.
 */
module ImageProvider {
  import opened Wrappers
  import opened Bsq
  import opened Overlay
  import opened BlockGrid

  datatype CodecError =
    | InvalidBlockCoordinates(row: nat, col: nat, level: nat)
    | Decode(message: string)
    | Io(message: string)

  type CodecResult<+T> = Result<T, CodecError>

  /** Band-sequential data and its shape. */
  datatype Block = Block(data: seq<byte>, bands: nat, rows: nat, cols: nat)

  datatype ImageProvider = ImageProvider(columns: nat, rows: nat, bands: nat,
                                         blockWidth: nat, blockHeight: nat, bitsPerPixel: nat,
                                         getBlock: (nat, nat) -> CodecResult<Block>,
                                         hasBlock: (nat, nat) -> CodecResult<bool>)
  {
    predicate WellFormed() { blockWidth > 0 && blockHeight > 0 && bitsPerPixel > 0 }

    function Bpp(): nat { CeilDiv(bitsPerPixel, 8) }

    function Blocks(): (g: Grid)
      ensures WellFormed() ==> g.Valid()
    {
      CeilDivCounts(bitsPerPixel, 8, 0);
      Grid(columns, rows, blockWidth, blockHeight, Bpp())
    }

    /** A pixel takes the least number of whole bytes that holds its bits. */
    lemma PixelBytes()
      ensures 8 * Bpp() - 8 < bitsPerPixel <= 8 * Bpp() || bitsPerPixel == Bpp() == 0
    {}

    predicate InGrid(r: nat, c: nat) requires WellFormed() { Blocks().InGrid(r, c) }

    /** A block's shape covers at least its part of the image, and its data fills its shape. */
    ghost predicate Covers(r: nat, c: nat, blk: Block) {
      && Blocks().BlockRows(r) <= blk.rows && Blocks().BlockCols(c) <= blk.cols
      && blk.bands == bands
      && |blk.data| == bands * blk.rows * (blk.cols * Bpp())
    }

    /** Every block served covers its part of the image. */
    ghost predicate Conforms()
      requires WellFormed()
    {
      forall r: nat, c: nat | InGrid(r, c) && getBlock(r, c).Ok? :: Covers(r, c, getBlock(r, c).value)
    }

    /** Every block served is clipped to the image. */
    ghost predicate Clips()
      requires WellFormed()
    {
      forall r: nat, c: nat | InGrid(r, c) && getBlock(r, c).Ok? ::
        getBlock(r, c).value.rows == Blocks().BlockRows(r) && getBlock(r, c).value.cols == Blocks().BlockCols(c)
    }

    /** The image behind the provider: byte column j of line y of band b, as its block holds it. */
    function Sample(b: nat, y: nat, j: nat): byte
      requires WellFormed()
    {
      Blocks().StepPositive();
      match getBlock(y / blockHeight, j / Blocks().Step())
      case Ok(blk) => At(blk.data, blk.rows, blk.cols * Bpp(), b, y % blockHeight, j % Blocks().Step())
      case Err(_) => 0
    }

    /** img holds the provider's whole image. */
    ghost predicate Depicts(img: seq<byte>)
      requires WellFormed()
    {
      && |img| == bands * rows * Blocks().Line()
      && forall b: nat, y: nat, j: nat | b < bands && y < rows && j < Blocks().Line() ::
           Sample(b, y, j) == At(img, rows, Blocks().Line(), b, y, j)
    }
  }
}
