# Verified model of the imagery I/O core

This project models, in Dafny, the part of the imagery I/O library where bytes are moved and
states change, and proves what it is for:

- **Retiling and copy-on-write images** (`Bsq`, `Overlay`, `BlockGrid`, `ImageProvider`,
  `TileAssembler`, `Retiling`, `BufferedImage`, `BufferedProvider`, `CopyOnWrite`, `ImageRuns`).
  An image source is a value with a block function; its contract is that a block covers its part
  of the image. The assembler and the buffered image are written with the loops, offsets and
  buffers of the program. Everything is proved against one abstract image, byte by byte: a
  position is a band, a line and a byte column, so the width of a pixel is just a scale.
- **Sub-byte packing** (`BitPack`), over bit-vectors, with the `|=` loop in place on an array.
- **Binary formats**: JPEG 2000 tile-parts (`TileParts`, `OverlongParts`; ISO/IEC 15444-1, A.4.2),
  the single-tile TIFF file (`SyntheticTiff`; TIFF Revision 6.0, section 2) with an independent reader, and DTED
  records (`Dted`) with an independent encoder.
- **State machines and views**: the range cache and the concurrent stream fetcher (`RangeCache`,
  `StreamFetcher`, `FetchProgress`, `FetchOnce`), views over resident and remote bytes (`OwnedBuffer`), the composite writer and
  reader (`AssetKeys`, `StableSort`, `CompositeWriter`, `CompositeRuns`, `CompositeReader`), the
  writer that owns file handles (`OwningWriter`), the metadata multimap (`Metadata`), and chip
  extraction (`ChipImage`).

Classes model the objects the program updates in place; their methods are proved against functions
of the old state, and the laws are lemmas about those functions, over whole runs where the program
has runs. Foreign code is a function value that may answer anything: sources of blocks, inner
writers, file handles, remote readers and prefetch policies.

Where the code and its description differ, the model follows the code:

- The stream fetcher is said to clamp the policy's ranges to the size of the source, and a policy to
  have no bearing on correctness (src/remote/policy.rs:6-8, 19-21). The fetcher does not clamp: a plan
  that runs past the end makes a request in bounds fail (`FetchProgress.PlanPastEndFails`), and
  `FetchProgress.AnswerableExactly` says exactly which plans do. The default policy clamps its own
  ranges (`FetchProgress.DefaultPolicyAnswers`).
- Splitting a codestream accepts a last tile-part whose Psot reaches past the end. Reordered, it may
  swallow the parts behind it (`OverlongParts.OverlongPartSwallows`); `OverlongParts.ResplitExactly`
  says exactly when the reordered stream still splits into the same parts.
- Where a block of a buffered image does not meet a source on another grid, `has_block` says no and
  reading gives padding (`CopyOnWrite.HasBlockMeans`). On the source's own grid the source's answer is
  passed on (`CopyOnWrite.HasBlockOnSameGrid`).
- The padding copy never compares the tile with the block. One that is wider and shorter is copied
  without a panic, each line spilling into the next (`CopyOnWrite.OversizeTile`).
- A block read through a source with the same grid is returned as it is; it has the image's shape
  only where the edges agree (`CopyOnWrite.DirectShape`).
- Band indices past the image are skipped, but counted in the reported shape
  (`CopyOnWrite.SelectedShape`).
- JPEG tables of one to four bytes are written where TIFF keeps the value itself, so a reader gets
  bytes of the offset instead (`SyntheticTiff.TileBack` says exactly when the tables survive).
- In `decode_dted_tile` the special case for missing posts changes nothing: all ones is already
  -32767 in signed magnitude. A record too short for the posts panics (`Dted.Decoded`).
- A composite writer passes metadata on even after it is closed (`CompositeRuns.AfterClose`), and
  a level without a writer still uses up the key (`CompositeRuns.RejectedKeyStays`).
- `01` and `+1` are levels too, so two keys can name one overview (`AssetKeys.SpellingsCollide`).
- A range whose end overflows is an invalid slice for a resident buffer and an overflow for a batch
  of a remote one (`OwnedBuffer.BoundsError`).

## Model

| member | source | states |
|---|---|---|
| Overlay.CopyBands | src/assembly/tile_assembler.rs:130-177 | the band and row loops with their offset arithmetic equal laying one window over another: every byte inside comes from the source window, every byte outside is untouched |
| BlockGrid.AxisPartition | src/assembly/tile_assembler.rs:40-44 | each position of an axis lies in exactly one clipped block, and that block is in the grid |
| BlockGrid.CeilDivCounts | src/buffered/image.rs:113-120 | the ceiling division counts exactly the blocks that start inside the image |
| ImageProvider.ImageProvider.PixelBytes | src/assembly/tile_assembler.rs:35 | a pixel takes the least number of whole bytes that holds its bits |
| TileAssembler.TileAssembler.GetOutputTile | src/assembly/tile_assembler.rs:61-116 | the block loop returns the image's window of the tile; on matching grids the source's own answer; it succeeds if and only if the source serves every block that meets the tile |
| TileAssembler.TileAssembler.FirstErrorIsFirst | src/assembly/tile_assembler.rs:86-113 | the loops find no error exactly when every block of the rectangle is served, and otherwise the error of the first failing block in reading order |
| TileAssembler.TileAssembler.NeedsExactly | src/assembly/tile_assembler.rs:79-90 | the blocks visited are exactly the source blocks that share a byte of the image with the tile |
| TileAssembler.TileAssembler.TileSucceeds | src/assembly/tile_assembler.rs:61-116 | a tile request succeeds if and only if no source block meeting the tile fails, on the direct and on the assembled path; otherwise its error is that of the first such block |
| TileAssembler.TileAssembler.TileElsewhere | src/assembly/tile_assembler.rs:61-76 | off the image every request is answered with the coordinates as an error; on the source's own grid the source's blocks are passed on untouched, padding included |
| TileAssembler.TileAssembler.CopyTileRegion | src/assembly/tile_assembler.rs:118-177 | one source block is laid over the tile at its absolute position, and nothing else is written |
| TileAssembler.TileAssembler.BlocksMeetTile | src/assembly/tile_assembler.rs:79-90 | every source block asked for is inside the source grid, and there is at least one |
| TileAssembler.TileAssembler.LayerCovers | src/assembly/tile_assembler.rs:86-113 | loop invariant: each block extends the part of the tile that holds the image, whatever padding it carries |
| TileAssembler.TileAssembler.AllCovered | src/assembly/tile_assembler.rs:86-115 | after the last block no initial byte of the tile survives |
| TileAssembler.ReassembleFullImage | src/assembly/tile_assembler.rs:182-189 | the whole image as one tile, which succeeds if and only if every source block is served |
| Retiling.RetilingIsExact | src/assembly/tile_assembler.rs:61-177 | for every image, grids, band count and pixel width: if all source blocks that meet the tile are served, every pixel of the tile is the image's pixel at that absolute position, in the clipped shape; if not, the error of the first that fails. Both on the fast and the assembled path |
| Retiling.ReassemblyIsWhole | src/assembly/tile_assembler.rs:182-189 | reassembling gives the image back if and only if the answer has the image's shape, which it has unless the source is one block that it pads |
| Retiling.ExactCover | src/assembly/tile_assembler.rs:130-175 | clipped or padded to nominal size, a block writes a position of the image exactly when it owns it: the writes are disjoint and cover |
| Retiling.OrderIrrelevant | src/assembly/tile_assembler.rs:86-113 | any order of the blocks, with repetitions, over any initial bytes, gives the same tile |
| Retiling.HasBlockIsExact | src/assembly/tile_assembler.rs:54-58 | the geometry check is the grid check whenever its 32-bit products fit; a request whose products do not fit is outside the grid |
| Retiling.HasBlockAccepts | src/assembly/tile_assembler.rs:54-58 | for every request: accepted if and only if its start, wrapped around 32 bits, lies in the image |
| Retiling.HasBlockWraps | src/assembly/tile_assembler.rs:54-58 | a concrete wrap-around that the check accepts although the tile is outside the grid |
| Retiling.NoOverflow | src/assembly/tile_assembler.rs:79-90 | for in-grid tiles no 32-bit intermediate overflows when each image side plus the larger block side fits in 32 bits |
| BufferedImage.CheckIsExact | src/buffered/image.rs:629-635 | for requests inside the buffered image's grid the wrapped check is exact |
| BufferedImage.NewPadded | src/buffered/image.rs:645-655 | filling chunk by chunk, or skipping an all-zero pad, puts the pad pixel in every pixel of every line |
| BufferedProvider.BufferedImageAssetProvider.SetBlock | src/buffered/image.rs:292-311 | overrides one block of the grid and records it as provided, without checking its length, and succeeds; outside the grid nothing changes and it fails |
| BufferedProvider.BufferedImageAssetProvider.SetFullImage | src/buffered/image.rs:320-356 | replaces all blocks by the image cut along the grid, and succeeds exactly for the right length; otherwise nothing changes |
| BufferedProvider.BufferedImageAssetProvider.ExtractBlockBsq | src/buffered/image.rs:359-402 | the block's bytes are the image's at its absolute position |
| BufferedProvider.BufferedImageAssetProvider.GetRawBsq | src/buffered/image.rs:405-461 | the stored blocks put back together; lines that a block's data does not reach stay zero |
| BufferedProvider.BufferedImageAssetProvider.HasBlock | src/buffered/image.rs:495-539 | false off level 0 and off the grid; without a source true exactly for overrides; over a source on another grid true exactly for overrides and for blocks that share a byte with the source's image. CopyOnWrite.HasBlockOnSameGrid says what holds on the source's own grid |
| BufferedProvider.BufferedImageAssetProvider.GetBlock | src/buffered/image.rs:541-729 | override, direct source block, padding, or retiled and padded tile, then the requested bands in order; succeeds if and only if the request is at level 0, in the grid, and the block is overridden or a source is present and none of its blocks that are needed fails |
| BufferedProvider.BufferedImageAssetProvider.PadPartialTile | src/buffered/image.rs:675-701 | the padding loop lays the tile over pad pixels from the block's first pixel on |
| BufferedProvider.ExtractBands | src/buffered/image.rs:708-722 | the requested bands in order, an index past the data skipped |
| CopyOnWrite.AllBandsIsCow | src/buffered/image.rs:541-704 | a read succeeds exactly when the block is overridden or the source serves what it needs, and then returns exactly the block of the copy-on-write image: the override, else the source inside its extent, else the pad pixel, in the image's block shape |
| CopyOnWrite.ReadSucceeds | src/buffered/image.rs:541-704 | a read in the grid succeeds if and only if the block is overridden, or there is a source and it serves each of its blocks that shares a byte with this one |
| CopyOnWrite.ReadFails | src/buffered/image.rs:541-729 | how a read fails: wrong level or coordinates as such, no override and no source for want of the block, otherwise with the error of the first source block that is needed and fails |
| CopyOnWrite.OverrideIsRead | src/buffered/image.rs:586-616 | an override is read back as it was set, whatever its length, in its block's shape; bands are cut out of it with a band size whose pixels are counted in 32 bits |
| CopyOnWrite.DirectIsSource | src/buffered/image.rs:619-628 | on a matching grid, clipped or padded and whether or not the edges agree, a read gives the source block unchanged, or the bands asked for of it: in its own shape, with the copy-on-write image in the part that lies in the source and the source's own bytes past it; or the source's failure |
| CopyOnWrite.HasBlockMeans | src/buffered/image.rs:495-539 | over a source on another grid: present exactly when overridden or sharing a byte with the source's image; a block reported absent reads as padding; the report agrees with reading if and only if the block is overridden, or meets the source and every source block it needs is served |
| CopyOnWrite.HasBlockOnSameGrid | src/buffered/image.rs:522-528 | over a source on the same grid: overridden, or the source's own report; for a source that reports what it serves, it agrees with reading if and only if the block is overridden or in the source's grid |
| CopyOnWrite.CowRetiled | src/buffered/image.rs:660-703 | on another grid the retiled and padded tile is the source window with padding outside the source |
| CopyOnWrite.DirectShape | src/buffered/image.rs:620-627 | on a matching grid the block has the image's shape if and only if source and image clip it alike |
| CopyOnWrite.TilesFitExactly | src/buffered/image.rs:672-701 | tiles never exceed the blocks they are copied into if and only if on each axis the source ends no later than the image or the image ends with a whole block |
| CopyOnWrite.OversizeTile | src/buffered/image.rs:688-700 | for a tile of any shape, the copy stays in bounds if and only if the last line of the tile ends inside a band; a wider tile that passes is shorter, and its lines run into the line below |
| CopyOnWrite.SelectedBand | src/buffered/image.rs:706-722 | selected band i is band indices[i] of the data, also when the data ends within a band |
| CopyOnWrite.SelectedShape | src/buffered/image.rs:706-722 | the length of the selection is that of the reported shape if and only if every index names a whole band of the data |
| ImageRuns.RunValid | src/buffered/image.rs:292-356 | in every reachable state the provided blocks are the keys of the block map and all are in the grid |
| ImageRuns.LastWriteWins | src/buffered/image.rs:292-356 | over any run of writes a block holds what the last write that set it says, or what it held before |
| ImageRuns.WriteAnswers | src/buffered/image.rs:292-334 | a write is answered with success if and only if it is applied: the block starts inside the image, or the data has the length of the image; a refused write changes nothing |
| ImageRuns.RunWellSized | src/buffered/image.rs:292-356 | over any run, if the writes that set a block have its size, so has the override |
| ImageRuns.ReadAfterRun | src/buffered/image.rs:541-729 | after any run of writes, those to the block in question of its size, a read, with or without band selection, succeeds if and only if the block was overridden before or by some write of the run, or the source serves what it needs; and then it reads the copy-on-write image |
| ImageRuns.OverriddenAfterRun | src/buffered/image.rs:292-356 | over any run of writes a block is overridden if and only if it was before or some write set it |
| ImageRuns.PixelsThatWrap | src/buffered/image.rs:598-611 | the 32-bit pixel count of an override keeps the band size right if and only if the block has fewer than 2^32 pixels |
| ImageRuns.HasBlockIffReadable | src/buffered/image.rs:495-729 | without a source, and off the grid, a block is reported present exactly when reading it succeeds; over a source on another grid this holds exactly for blocks that are overridden, or meet the source and get all they need from it |
| ImageRuns.RawIsWhole | src/buffered/image.rs:405-461 | cutting an image along the grid and putting the blocks back gives the image |
| ImageRuns.RawHoldsLines | src/buffered/image.rs:405-461 | for data of any length, a byte of the raw image is its block's, if the block is stored and its data reaches the end of the line, and zero otherwise |
| ImageRuns.CowAsSource | src/buffered/image.rs:463-729 | a buffered image is itself a conforming source that clips its blocks: it serves exactly the readable ones, so it can stand behind another buffered image |
| ImageRuns.CowSampled | src/buffered/image.rs:541-704 | the image behind that source is, byte by byte, the copy-on-write image |
| ImageRuns.SetImageDepicts | src/buffered/image.rs:320-356 | after setting a full image, the buffered image is itself a conforming source that depicts it, serves every block of its grid and reports exactly these |
| ImageRuns.ThreeWayAgreement | src/buffered/image.rs:320-461 | after setting a full image, over any source or none, the raw bytes and the reassembled image are both that image, for every positive block size, dividing or not |
| BitPack.UnpackSubbyteMsbFirst | src/bitpack.rs:49-81 | rows take the least whole number of bytes; sample (row, col) is the field that starts col * bits bits below the highest bit of its row, 0 where the input ends |
| BitPack.PackSubbyteMsbFirst | src/bitpack.rs:104-135 | the length is the number of rows times the least number of bytes that holds a row; each field holds the low bits of its sample, highest bits first, and zeros past the end of the row or of the samples |
| BitPack.RowLength | src/bitpack.rs:24-29 | the row length is the one number of bytes that holds the samples with less than a byte to spare |
| BitPack.UnpackAfterPack | src/bitpack.rs:49-135 | unpacking what was packed gives every sample modulo 2^bits, for 1, 2 and 4 bits and all row and column counts |
| BitPack.PackAfterUnpack | src/bitpack.rs:49-135 | packing what was unpacked is the buffer with only the row-end padding bits cleared |
| BitPack.NormalForm | src/bitpack.rs:49-135 | clearing the padding is idempotent, and is the identity if and only if the length is right and the padding is clear |
| TileParts.SplitTileParts | scripts/generate_test_data.py:559-579 | head, tile-parts and tail, or the error for a missing marker, a short SOT segment or a Psot of zero; the loop terminates |
| TileParts.SplitFollowsWalk | scripts/generate_test_data.py:559-579 | splitting is the walk from marker to marker by Psot: one part for each position passed, with the indices its bytes give, or the exact reason why the last position cannot be passed |
| TileParts.SplitAnswers | scripts/generate_test_data.py:559-579 | the missing-marker error exactly when no FF 90 occurs; otherwise success exactly when the walk ends where no marker stands |
| TileParts.SplitRebuilds | scripts/generate_test_data.py:559-579 | head, parts and tail rebuild every codestream that splits, whatever its Psot values |
| TileParts.WholeIffInRange | scripts/generate_test_data.py:559-579 | the parts carry their own length and indices if and only if every Psot is at least 12 and stays inside the codestream |
| TileParts.OrderIsStableSort | scripts/generate_test_data.py:597-599 | the reordering is the stable sort by the key that ResolutionMajor spells out |
| TileParts.ResolutionMajor | scripts/generate_test_data.py:582-599 | of any two reordered parts, the first has the smaller tile-part index; among equals the smaller tile index; and equals in both stay in their order |
| TileParts.TileKeepsOrder | scripts/generate_test_data.py:593-595 | the parts of a tile that came in ascending tile-part order keep their order |
| TileParts.SortPermutes | scripts/generate_test_data.py:597-599 | reordering keeps the multiset of parts and the number of bytes |
| TileParts.ResplitInterleaved | scripts/generate_test_data.py:582-599 | for Psot values in range, splitting the reordered stream gives the same head and tail around exactly the sorted parts, at the same length; OverlongParts.ResplitExactly covers the others |
| TileParts.InterleaveIdempotent | scripts/generate_test_data.py:582-599 | for Psot values in range, reordering twice is reordering once |
| OverlongParts.SplitKinds | scripts/generate_test_data.py:559-579 | with every Psot at least 12, all parts but the last are whole, and the last is whole or claims more bytes than are left |
| OverlongParts.ResplitExactly | scripts/generate_test_data.py:559-599 | with every Psot at least 12: splitting the reordered stream gives the same head and tail around exactly the sorted parts if and only if every Psot is in range or no part has a larger key than the last one |
| OverlongParts.LastStaysExactly | scripts/generate_test_data.py:597-599 | the stable sort leaves the last part last if and only if no part has a larger key |
| OverlongParts.OverlongPartSwallows | scripts/generate_test_data.py:559-599 | a concrete stream with a Psot past the end: reordered, the overlong part swallows the other one |
| SyntheticTiff.ByteBuffer.WriteIfdEntry | src/bindings/codecs.rs:309-314 | appends one entry to the directory printed so far |
| SyntheticTiff.BuildSyntheticTiff | src/bindings/codecs.rs:328-447 | the appends produce header, entry count, entries, next offset, tables and data, in all four combinations of optional tags |
| SyntheticTiff.EntriesAscend | src/bindings/codecs.rs:377-433 | tags ascend strictly |
| SyntheticTiff.EntriesDescribe | src/bindings/codecs.rs:380-433 | every field is found under its tag with its type, count and value, the optional ones exactly when they apply |
| SyntheticTiff.DirectoryOfTile | src/bindings/codecs.rs:344-447 | an independent reader finds exactly the entries written and no further directory, and the computed offsets locate tables and data |
| SyntheticTiff.TileBack | src/bindings/codecs.rs:328-447 | a reader that goes by tag and type code (3 two bytes, 4 four bytes, 7 plain bytes) recovers every field and the tile data; the JPEG tables too if and only if they are longer than four bytes, empty, absent, or happen to begin their own offset |
| SyntheticTiff.ShortTablesAreLost | src/bindings/codecs.rs:424-433 | tables of one to four bytes that do not start with the low byte of their offset are not recoverable |
| SyntheticTiff.PrintingIsInjective | src/bindings/codecs.rs:328-447 | the file determines the tile, short tables included |
| Dted.DecodeDtedTile | src/bindings/codecs.rs:621-693 | the checks in order, a panic exactly when records are too short for the northernmost kept post, otherwise one cell for each post left by the trims, each its post |
| Dted.DecodeOfEncoded | src/bindings/codecs.rs:665-693 | decoding a column-major, south-to-north, signed-magnitude encoding of any grid gives the grid row by row from the north, whatever headers and checksums |
| Dted.DecodeOfTrimmed | src/bindings/codecs.rs:647-693 | decoding an encoded grid with trims gives the grid without those rows and columns, row by row from the north |
| Dted.PostBack | src/bindings/codecs.rs:683-690 | every number from -32767 to 32767 survives encoding and decoding |
| Dted.PostForth | src/bindings/codecs.rs:683-690 | re-encoding a decoded post gives its bytes back if and only if it is not a negative zero |
| Dted.TrimIsCrop | src/bindings/codecs.rs:647-693 | decoding with trims is cropping the untrimmed decoding; it succeeds beyond it only when northern rows are cut off |
| StableSort.SortBySorts | src/composite/writer.rs:62-74 | sorting by a number is sorted, a permutation, and keeps elements with the same number in their order |
| RangeCache.MergeAt | src/remote/cache.rs:111-120 | merging two touching ranges keeps both, the first winning where they overlap |
| RangeCache.Cache.Get | src/remote/cache.rs:50-62 | the bytes are served exactly when all of them are cached, although only a single range is consulted |
| RangeCache.Cache.Insert | src/remote/cache.rs:75-94 | ranges stay sorted with gaps between them; old bytes stay, the rest of the new range is added |
| RangeCache.ServedIsExact | src/remote/cache.rs:50-94 | whatever a coherent cache serves is the source's bytes |
| StreamFetcher.Coalesce | src/remote/fetcher.rs:314-326 | the merging loop equals its functional form |
| StreamFetcher.CoalescedPlan | src/remote/fetcher.rs:314-326 | a coalesced plan asks for exactly the planned bytes, sorted, each once, no two spans touching |
| StreamFetcher.FillCache | src/remote/fetcher.rs:186-196 | inserting the fetched spans is the filling step of the machine |
| StreamFetcher.RunKeeps | src/remote/fetcher.rs:227-309 | in every reachable state of any number of interleaved calls, the cache is coherent and every partial answer exact |
| StreamFetcher.AnswersAreExact | src/remote/fetcher.rs:201-309 | however calls interleave and whatever the policy plans, an answered call got exactly its bytes, and a call fails as out of bounds if and only if it is; FetchProgress.AnswerableExactly says when a call in bounds can be answered |
| StreamFetcher.CacheGrows | src/remote/fetcher.rs:186-196 | what is cached stays cached with the same bytes through every step of every run |
| FetchProgress.AnswerableExactly | src/remote/fetcher.rs:227-309 | once its policy has planned, a call in bounds can still reach its answer if and only if it was served from the cache or every span to be fetched ends inside the source, which is so exactly when the planned spans do; otherwise it can only fail |
| FetchProgress.FetchingStuck | src/remote/fetcher.rs:240-244 | whatever the other calls do, a call that waits for a span past the end waits or has failed |
| FetchProgress.PlanPastEndFails | src/remote/policy.rs:6-21 | a concrete run: a request in bounds, a plan one byte past the end, and no answer |
| FetchProgress.HeaderAwarePlanCovers | src/remote/policy.rs:58-77 | the default policy plans exactly the requested bytes of the source and, for a request that starts in the header, the header |
| FetchProgress.DefaultPolicyAnswers | src/remote/policy.rs:58-77 | with the default policy every call in bounds, for one range or many, can be answered |
| FetchOnce.AnsweredIsServed | src/remote/fetcher.rs:186-216 | what an answered call got is served from the cache, with the same bytes, at any later point of any run |
| FetchOnce.CoveredNeverHeals | src/remote/fetcher.rs:201-309 | a call whose policy planned all it asked for that was not cached never fetches a range by itself, whatever the other calls do |
| FetchOnce.DefaultPolicyCovers | src/remote/policy.rs:58-77 | the default policy plans all that a call in bounds asks for and that is not cached |
| OwnedBuffer.SliceIsExact | src/owned_buffer.rs:142-187 | slicing checks bounds the same way for every backing and yields exactly the bytes asked for, resident, with the range invariant kept |
| OwnedBuffer.MaterializeIsExact | src/owned_buffer.rs:201-206 | materializing makes a view resident with the same bytes, or fails to fetch them; a resident view stays as it is |
| OwnedBuffer.RemoteRefinesHeap | src/owned_buffer.rs:142-222 | after any chain of narrowing, slicing and materializing, a remote buffer stands for the same bytes as a heap buffer, or fails with the same error, unless a fetch failed |
| OwnedBuffer.ChainRefines | src/owned_buffer.rs:142-222 | the same from any two buffers that agree |
| OwnedBuffer.ChainSlices | src/owned_buffer.rs:142-222 | a chain of calls shows what slicing the plain bytes shows, for every backing, and fails only where that is out of bounds or a fetch fails |
| OwnedBuffer.ChainAnswers | src/owned_buffer.rs:142-222 | when fetches do not fail, no chain fails for that reason |
| OwnedBuffer.NarrowComposes | src/owned_buffer.rs:218-222 | nested views add their offsets, whatever the backing |
| OwnedBuffer.SliceOfNarrow | src/owned_buffer.rs:142-222 | slicing a narrowed buffer answers what slicing the original at the summed offsets does |
| OwnedBuffer.ReadRangeIsExact | src/owned_buffer.rs:244-246 | the bytes, an error of the bounds (also when the end overflows), or a failed fetch; never other bytes |
| OwnedBuffer.ReadRanges | src/owned_buffer.rs:265-301 | the bytes of every range in order, or the error of the first range out of bounds, or a failed fetch; an end past 2^64 is an overflow for a remote buffer and an invalid range for a resident one |
| OwnedBuffer.BatchIsMapping | src/owned_buffer.rs:244-301 | in bounds, a batch is reading the ranges one by one |
| AssetKeys.ParseOfFormat | src/composite/writer.rs:29 | parsing undoes decimal formatting for every level |
| AssetKeys.ParseDetermines | src/composite/writer.rs:29 | among all spellings of a level the formatted one is the only one without leading zeros or a sign |
| AssetKeys.OverviewKeyBack | src/composite/writer.rs:26-33 | an overview key is taken apart into the image and the level it was made of, even if the image's key holds separators |
| AssetKeys.OverviewKeysExactly | src/composite/writer.rs:26-33 | a key names an overview if and only if it is an image's key beginning "image:", then ":overview:", then a spelled level |
| AssetKeys.LevelSpelled | src/composite/writer.rs:29 | a level is spelled by an optional plus sign and digits of a number below 2^32, and in no other way |
| AssetKeys.KeysOfEachKind | src/composite/writer.rs:21-24 | the documented keys: an overview of an image, an image, and an overview of a text |
| AssetKeys.SameOverview | src/composite/writer.rs:26-33 | two keys naming one overview are equal if and only if they spell the level alike |
| AssetKeys.SpellingsCollide | src/composite/writer.rs:29 | concrete different keys that name one overview |
| CompositeWriter.CompositeDatasetWriter.AddAsset | src/composite/writer.rs:78-116 | closed, duplicate, routed or rejected, with the key recorded before routing |
| CompositeWriter.CompositeDatasetWriter.SetMetadata | src/composite/writer.rs:118-125 | forwards to every writer up to the first failure and records the metadata only after the last |
| CompositeWriter.CompositeDatasetWriter.Close | src/composite/writer.rs:127-138 | closes every writer up to the first failure; closed only after the last |
| CompositeRuns.SortingKeepsRoutes | src/composite/writer.rs:62-74 | sorting puts the writers in ascending order, keeps those of one level in their order, and changes no route |
| CompositeRuns.RoutesCollide | src/composite/writer.rs:92-116 | two different keys reach one writer under one name if and only if they spell one overview differently |
| CompositeRuns.RouteOfLevel | src/composite/writer.rs:92-116 | an overview goes to the first writer of its level under its image's key, and is rejected exactly when no writer has the level; anything else goes to the base writer unchanged |
| CompositeRuns.RoutingIsInjective | src/composite/writer.rs:26-33 | with levels in canonical form the route determines the key |
| CompositeRuns.RunDelivers | src/composite/writer.rs:78-116 | over every run: exactly one inner call for the first attempt at each routable key, in order, none after closing; all other attempts fail with the stated error and reach nobody |
| CompositeRuns.RejectedKeyStays | src/composite/writer.rs:92-109 | a rejected level leaves its key recorded: the next attempt is a duplicate |
| CompositeRuns.CloseInOrder | src/composite/writer.rs:127-138 | a close calls the base writer and then each overview writer in turn, up to the first failure, which it reports; the composite is closed if and only if all of them answered without failure |
| CompositeRuns.ClosedMeansAllClosed | src/composite/writer.rs:127-138 | in every reachable closed state the log holds the closing of the base writer and then of every overview writer, each answered without failure |
| CompositeRuns.AfterClose | src/composite/writer.rs:78-138 | a closed composite refuses assets and ignores closing, but still forwards metadata to all its writers |
| CompositeRuns.MetadataInOrder | src/composite/writer.rs:118-125 | metadata goes to the base writer and then to each overview writer in turn, up to the first failure, which is reported; it is recorded if and only if there is none |
| CompositeReader.CompositeDatasetReader.constructor | src/composite/reader.rs:38-66 | the last provider of a level wins, every entry is listed, sorted by level |
| CompositeReader.LastOfLevelWins | src/composite/reader.rs:38-51 | the overview of a level is that of the last entry of this very level, and there is none if no entry has the level; entries of other levels do not matter |
| CompositeReader.CompositeDatasetReader.GetAsset | src/composite/reader.rs:70-88 | the cache never shows: the answer depends on the entries and the base reader only |
| CompositeReader.CompositeDatasetReader.HasAsset | src/composite/reader.rs:111-113 | true exactly when asking for the asset succeeds, for a consistent base reader |
| CompositeReader.ListedKeysResolve | src/composite/reader.rs:70-109 | exactly the listed overview keys resolve to overviews, every other key as the base reader resolves it, and they ascend by level |
| CompositeReader.KeysSpelled | src/composite/reader.rs:45-50 | the listed keys are "image:0:overview:" and the level in decimal, and name that overview of the first image |
| CompositeReader.ListedKeyRoutesBack | src/composite/reader.rs:45-58 | a key listed for a level is routed by the composite writer to that level, as the image itself |
| OwningWriter.DatasetWriter.Close | src/bindings/writer.rs:221-243 | finalize, then every handle, then the first failure of all of these |
| OwningWriter.RunCloses | src/bindings/writer.rs:136-243 | over any sequence of calls: requests in order until the first close, then one finalization and every handle, and nothing afterwards; each call's answer |
| OwningWriter.RunInOrder | src/bindings/writer.rs:136-243 | event by event: the requests before the first close in order, the finalization, then the handles in the order of ownership, and nothing else |
| OwningWriter.FirstFailureIs | src/bindings/writer.rs:221-243 | nothing is reported exactly when nothing failed, otherwise the failure that came first |
| OwningWriter.ClosedExactlyOnce | src/bindings/writer.rs:221-243 | the writer is finalized at most once and before any handle, and each handle is closed exactly as often as it is owned, whatever fails |
| Metadata.BufferedMetadataProvider.FromProvider | src/buffered/metadata.rs:61-75 | every instance of every listed key, in order, whatever the source lists |
| Metadata.CopyIsIdentity | src/buffered/metadata.rs:61-75 | copying a provider that shows a multimap gives that multimap |
| Metadata.BufferedMetadataProvider.SetAll | src/buffered/metadata.rs:94-102 | replaces the whole slot, an empty list removes it, other keys are untouched, the old count is returned |
| Metadata.BufferedMetadataProvider.Append | src/buffered/metadata.rs:107-112 | one more instance at the end, other keys untouched |
| Metadata.BufferedMetadataProvider.Remove | src/buffered/metadata.rs:115-119 | removes the slot and returns its first instance |
| Metadata.BufferedMetadataProvider.Update | src/buffered/metadata.rs:126-139 | whatever the iteration order: every entry replaces its slot, and the narrowed keys come back sorted with their counts |
| Metadata.NarrowedUnique | src/buffered/metadata.rs:126-139 | the list an update returns is determined by the old state and the entries |
| Metadata.UpdateIsSets | src/buffered/metadata.rs:83-139 | an update is setting its entries one by one, in any order |
| Metadata.Keys | src/buffered/metadata.rs:183-188 | the keys sorted, each once |
| Metadata.LessIsLexicographic | src/buffered/metadata.rs:183-188 | keys are ordered lexicographically: up to some position they agree, and there the smaller one ends or has the smaller character |
| Metadata.KeyListUnique | src/buffered/metadata.rs:183-188 | the list of keys does not depend on the map's order |
| Metadata.ReadersAgree | src/buffered/metadata.rs:160-204 | every single-valued reader shows the head of the instance list, and a key is present exactly when it has instances |
| Metadata.KeysCount | src/buffered/metadata.rs:172-188 | a repeated key counts once |
| ChipImage.OverlapIsExact | scripts/chip_image.py:116-128 | a window position falls into a block's copied range exactly when the block owns it, and there it finds its own sample |
| ChipImage.BlockOfSample | scripts/chip_image.py:72-80 | a sample belongs to the block of the stated size it falls in; a block size of zero means one block for the whole axis |
| ChipImage.ExtractRegion | scripts/chip_image.py:50-134 | the chip is the clamped window sample for sample, with zeros exactly where the covering block is missing, and an error exactly when the clamped box is empty |

## Left out

- Decoding and encoding of pixels (libtiff, OpenJPEG, libjpeg, PNG), memory mapping, and the NITF, TIFF, JPEG 2000, PNG and DTED readers and writers around the modelled functions.
- Python and NumPy glue, URL and file dispatch, error texts; a NumPy array is the sequence of its samples.
- Locks are plain fields in the buffered image, the metadata and the composite reader; lock poisoning is not modelled. Interleaving is modelled for the stream fetcher, where the lock is released during a fetch.
- The floating-point pad value: the pad pixel is an arbitrary byte sequence of the pixel's width.
- Resolution levels and band selection of a source: sources are read at level 0 with all bands, as the modelled code does.
- Sources with a block size of zero, and sources with another band count or pixel width than the buffered image, which the code does not check.
- The blocks of sources that do not cover their part of the image; the contract of a source says they do.
- Overflow of 64-bit buffer sizes, and running out of memory.
- BufferedProvider.BufferedImageAssetProvider.GetBlock: for a block that is not overridden and meets a source on another grid, requires a tile that fits the block; CopyOnWrite.TilesFitExactly says when all do, and CopyOnWrite.OversizeTile what the padding copy does with the others.
- OwnedBuffer.ReadRange: computes the end of the range with wrap-around, as a release build does; a debug build stops instead.
- SyntheticTiff.TileBack: for files of less than 2^32 bytes, the largest a TIFF offset can reach; sizes beyond that are truncated in the entries.
- Metadata.BufferedMetadataProvider.Update: JSON values are a type parameter, so cloning is not distinguished from sharing.
- `slice`, `as_bytes` and `resident_bytes` of a buffer: slicing, narrowing and viewing as modelled, with a panic or nothing instead of an error.
- Fairness of the reader and the scheduler: `FetchProgress` says which calls can be answered, not that they will be.
- Roles, titles and other attributes of overview wrappers, and the key filters of base readers.
- The text and data providers, drawing of test images, reports, benchmarks and build scripts.
