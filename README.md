# Tiled-address stride engine

This project models the integer core of `stride_calculations`. That core decides which tiles of a
matrix-multiplication chunk a worker reads, and which flat addresses those tiles have.

- **Coordinate advance.** A tile coordinate is (row within a block, column within a chunk, block
  index). `read_next_tile` advances it by a number of tiles. It carries whole pieces
  (`chunk_piece_size = unit height * chunk width in tiles` tiles) into the block index, then whole
  rows into the row, then the rest into the column. A row or column overflow moves on to the next
  row or block.
- **Remaining count.** `how_many_tiles_to_read_formula` is a closed form for the number of strided
  tiles left up to a last block.
- **Granular reader.** `read_tiles_granular`:
  - validates its arguments;
  - advances once by the worker id;
  - gives up when that first tile is already past the last block;
  - otherwise visits the counted run in batches of `min(remaining, granularity)` tiles.

  The version in `stride_idx_fns.py` also projects each tile, before advancing, to a slice
  coordinate. From that coordinate it reports a slice-local index and a ring-global index.
- **Grid configuration.** `GridConfig.recompute_derived` fills six derived dimensions from the
  primary ones, and construction always runs it.

Modules:

- `Arith` (`arith.dfy`) holds facts about division by a positive divisor. Dafny's `/` and `%` are
  Euclidean, so for a positive divisor they equal Python's `//` and `%`. Every division in the core
  is by a positive divisor.
- `Stride` (`stride.dfy`) models `stride_fns.py`:
  - `read_next_tile` becomes `Carry` and `NextTile`. These are functions, because the source is
    straight-line reassignment of its parameters. The three stages are `PieceStage`, `RowStage`
    and `ColStage`.
  - The count formula becomes `TilesToRead`.
  - The reader is the method `ReadTilesGranular`, with the source's `while` and `for` loops. It is
    proved equal to the function `GranularSpec`, and the source's promises are proved about
    `GranularSpec`.
  - The three geometry integers the source passes around are bundled as `Shape`.
- `Config` (`config.dfy`) models `config.py` and the identical class in `stride_idx_fns.py`:
  - `Geometry` is an immutable snapshot of the record, which the engine takes as a parameter.
  - `Recompute` is `recompute_derived` on a snapshot.
  - `GridConfig` is the mutable class. Its `RecomputeDerived` assigns the six derived fields in
    place, and its constructor runs it.
  - The placement indices (`N_block_idx`, `M_block_idx`, `chunk_idx`, `slice_actual_idx`) are
    fields, as in `stride_idx_fns.py`'s copy. `config.py`'s copy has no `chunk_idx`.
- `StrideIdx` (`stride_idx.dfy`) models `stride_idx_fns.py`:
  - the three projections;
  - the address reader `ReadTilesGranular`, whose inner loop is `ReadBatch`. It is proved equal to
    `AddressSpec`, which is the tile batches of `GranularSpec` mapped through the projections.
- `Scenarios` (`scenarios.dfy`) holds four repository test scenarios:
  - the exact tile batches the reader visits;
  - each record's index formula in closed form;
  - the exact slice and global index lists each test expects, as the address reader's result.

Differences from the source:

- **Results returned, not printed.** The source readers print what they visit. The model returns
  it: tile batches for `stride_fns.py`, and `(slice batches, global batches)` for
  `stride_idx_fns.py`. The tests expect these return values.
- **Configuration passed in.** The source reads a module-global `cfg`. The model passes the
  configuration record explicitly.
- **Arity mismatch.** `read_tiles_granular` in `stride_idx_fns.py` calls `read_next_tile` with four
  arguments and `how_many_tiles_to_read_formula` with five (lines 144, 147 and 157). Their
  definitions take seven (`stride_fns.py:4-12` and `48-56`). The model supplies the missing piece
  size, chunk width in tiles and unit height from the configuration record. It does not model the
  resulting `TypeError`. With that reading the code returns the lists four of the tests expect (the `Scenarios` lemmas).
- **Worker id.** A negative worker id reaches `read_next_tile`, which raises `ValueError`. The
  model reports this as `Err(NegativeAdvance)` from both readers.

## Model

| member | source | states |
|---|---|---|
| Stride.Carry | stride_fns.py:18-46 | Advancing by zero returns the coordinate unchanged, and the block index never decreases. |
| Stride.NextTile | stride_fns.py:16-19 | A negative advance is rejected, and it is the only error. Any other advance yields the staged carry. |
| Stride.PieceStage | stride_fns.py:22-25 | Row and column stay, the block index never decreases, and what is left of the advance is non-negative, no more than before, and less than one piece. |
| Stride.RowStage | stride_fns.py:27-36 | The column stays, and the block moves on by at most one (the row-overflow carry). An in-range row stays in range, and what is left of the advance is non-negative, no more than before, and less than one row. |
| Stride.ColStage | stride_fns.py:38-44 | The block moves on by at most one. An in-range row stays in range, and a non-negative column sum lands inside the chunk width. |
| Stride.PieceStageKeepsTarget | stride_fns.py:22-25 | The piece stage keeps the tile in range and leaves less than one piece to apply. Linear position plus pending advance is unchanged. |
| Stride.RowStageKeepsTarget | stride_fns.py:28-36 | The row stage, including its one-block carry on row overflow, keeps the tile in range and leaves less than one row. Linear position plus pending advance is unchanged. |
| Stride.ColStageKeepsTarget | stride_fns.py:38-44 | The column stage, with its row and block overflow, lands in range at exactly the target linear position. |
| Stride.CarryAgreesWithDivmod | stride_fns.py:22-46 | For an in-range tile, with piece size = unit height * chunk width: the result is in range, and its linear position `block*P + row*cw + col` is the old one plus the advance. The result equals the div/mod decoding of that target. |
| Stride.LinearOfDecode | stride_fns.py:22-46 | The div/mod decoding of any linear position is an in-range tile at that position. |
| Stride.DecodeOfLinear | stride_fns.py:22-46 | The div/mod decoding recovers every in-range tile from its linear position. |
| Stride.IterateLinear | stride_fns.py:130-142 | After `i` advances by the stride, an in-range tile is still in range, and `i * stride` further on. |
| Stride.TilesToRead | stride_fns.py:48-65 | For an in-range tile at or before block `last`, the count is at least 1, so the reader always visits that tile. |
| Stride.CountClosedForm | stride_fns.py:57-65 | The formula is one plus the number of whole strides between the tile and the last position of block `last`. |
| Stride.CountCorrect | stride_fns.py:48-65 | From an in-range tile at or before `last`, the count is at least 1. The `i`-th strided tile is at or before `last` if and only if `i` is below the count. |
| Stride.FlattenChunked | stride_fns.py:118-123 | Concatenating the batches gives back the run. |
| Stride.ChunkedSizes | stride_fns.py:118-123 | Batch `j` holds `min(remaining, granularity)` items and is non-empty. All batches but the last are full, and the batches cover the run. |
| Stride.GranularSpec | stride_fns.py:82-116 | Errors occur if and only if granularity <= 0, stride <= 0, last < start block, or a negative worker id, in the source's order of checks. The result is empty when the first tile is past `last`. |
| Stride.GranularRunCorrect | stride_fns.py:91-142 | For valid arguments, the batches are empty if and only if the first tile is past `last`. Concatenated, they are the tiles at linear positions `start + worker + i*stride`, all at or before `last`, and the next tile is past `last`. The run has the formula's count, and batch sizes are `min(remaining, granularity)`. |
| Stride.ReadTilesGranular | stride_fns.py:67-142 | The reader with its while and for loops returns exactly `GranularSpec`'s result. |
| Stride.ReadBatch | stride_fns.py:123-142 | One pass of the inner loop: the next `count` tiles of the strided run, and the tile after them. |
| Config.Recompute | config.py:29-38 | The result has every derived field equal to its product of primary fields. All primary fields and placement indices are unchanged. |
| Config.RecomputeFixesDerived | config.py:29-38 | A record is a fixed point of recomputation if and only if its derived fields are already consistent, so recomputing twice equals recomputing once. |
| Config.DerivedShape | config.py:36-37 | Positive primary dimensions make every derived width positive. They also make the piece size exactly unit height times chunk width in tiles, which is what the coordinate advance needs. |
| Config.GridConfig.constructor | config.py:26-27 | After construction the derived fields are consistent, and the object equals the recomputed record of its arguments. |
| Config.GridConfig.RecomputeDerived | config.py:29-38 | Afterwards the object's fields are the recomputation of the old ones, and the derived fields are consistent. On an already consistent object nothing changes. |
| StrideIdx.ToSliceCoordinates | stride_idx_fns.py:89-104 | For an in-range tile and in-range placement, the slice row decodes by div/mod into block, M-block index and tile row. The slice column decodes into N-block index, chunk index and tile column, and lies inside the slice. |
| StrideIdx.SliceTileIndex | stride_idx_fns.py:106-113 | For a column inside the slice, div and mod of the slice index by the slice width recover the row and the column. |
| StrideIdx.GlobalTileIndex | stride_idx_fns.py:115-123 | With global width = slice width * ring size, a slot in the ring and a column inside the slice, the global index decodes back into row, ring slot and column. |
| StrideIdx.AddressesUnique | stride_idx_fns.py:89-123 | Two in-range tiles get the same slice index (or, for a slot in the ring, the same global index) if and only if they are the same tile. |
| StrideIdx.AddressSpec | stride_idx_fns.py:137-152 | It has the same errors as the coordinate reader, in the same order, and an empty result when the first tile is past `last`. |
| StrideIdx.AddressRunCorrect | stride_idx_fns.py:144-159 | The address batches have the coordinate reader's batch sizes. Concatenated, they are the projections of the tiles at `start + worker + i*stride`, each taken before the advance. |
| StrideIdx.ReadBatch | stride_idx_fns.py:153-159 | One batch of the inner loop: the addresses of the next `count` strided tiles, and the tile after them. |
| StrideIdx.ReadTilesGranular | stride_idx_fns.py:125-160 | The address reader returns exactly `AddressSpec`'s result. |
| StrideIdx.ReadRun | stride_idx_fns.py:147-159 | The while loop over a counted run: its slice and global batches are the addresses of the run cut into batches of `min(remaining, granularity)`, none when the count is not positive. |
| Scenarios.BasicConfigurationTiles | test_stride_idx_fns.py:13-49 | Worker 0, stride 2, last block 3, granularity 4 visit four batches of four tiles, one batch per block. |
| Scenarios.BasicConfigurationAddresses | test_stride_idx_fns.py:44-45 | Under this record the slice index is `128*block + 16*row + col` and the global index is `256*block + 32*row + col`. |
| Scenarios.BasicConfiguration | test_stride_idx_fns.py:13-49 | The address reader returns exactly the test's lists: slice `[[0,2,16,18],[128,130,144,146],[256,258,272,274],[384,386,400,402]]` and global `[[0,2,32,34],[256,258,288,290],[512,514,544,546],[768,770,800,802]]`. |
| Scenarios.SliceActualIdxOneTiles | test_stride_idx_fns.py:92-127 | Stride 3, last block 2, granularity 5 visit two batches, of five and three tiles. |
| Scenarios.SliceActualIdxOneAddresses | test_stride_idx_fns.py:122-123 | Ring slot 1 shifts the global index by one slice width, 16. |
| Scenarios.SliceActualIdxOne | test_stride_idx_fns.py:92-127 | The address reader returns exactly the test's lists: slice `[[0,3,18,129,144],[147,258,273]]` and global `[[16,19,50,273,304],[307,530,561]]`. |
| Scenarios.MBlockIdxOneTiles | test_stride_idx_fns.py:168-203 | With chunk width 3, stride 3, last block 3 and granularity 4, the reader visits four batches of four tiles. |
| Scenarios.MBlockIdxOneAddresses | test_stride_idx_fns.py:198-199 | M-block 1 shifts the slice index by 32 and the global index by 64. |
| Scenarios.MBlockIdxOne | test_stride_idx_fns.py:168-203 | The address reader returns exactly the test's four slice lists and four global lists (lines 198-199), entry by entry. |
| Scenarios.NBlockIdxOneMBlockIdxTwoTiles | test_stride_idx_fns.py:206-240 | Stride 3, last block 3, granularity 5 visit batches of five, five and one tiles. |
| Scenarios.NBlockIdxOneMBlockIdxTwoAddresses | test_stride_idx_fns.py:236-237 | N-block 1, M-block 2 and chunk 1 shift the slice index by 76 and the global index by 140. |
| Scenarios.NBlockIdxOneMBlockIdxTwo | test_stride_idx_fns.py:206-240 | The address reader returns exactly the test's lists: slice `[[76,79,94,205,220],[223,334,349,460,463],[478]]` and global `[[140,143,174,397,428],[431,654,685,908,911],[942]]`. |

## Left out

- Printing (`print` calls, `print_config`, `read_tile_coords`, `stride_fns.py:144-158`) is diagnostic output. The visited tiles and addresses are returned instead.
- The `__main__` blocks of all files are script entry points.
- The module-global `cfg` and `reset_config` (`config.py:53-60`, `stride_idx_fns.py:65-72`) rebind ambient state. The configuration record is passed to every call instead.
- `read_tiles_granular_from_params` and `ReadTilesGranularParams` (`stride_idx_fns.py:5-13`, `75-87`) only forward their fields to the reader. Their field names differ from those the tests use.
- The direction-based and worker-count-based readers that the tests import are not defined in the files modelled here. Their tests are not modelled.
- `test_chunk_width_3_chunk_idx_1` expects a clamped effective chunk width that the code does not compute (the formula gives 24 tiles where the test lists 8). It is not stated as a scenario.
- `loop_simulation.py` (the iteration-history driver) is not part of this model. It drives the undefined direction readers.
- Dataclass default values of the configuration fields are not modelled. Scenarios and callers give every primary field.
- Stride.TilesToRead: the count is defined only for a positive stride. The source would also evaluate it for a negative stride (Python floor division), but the reader never calls it so.
- Stride.Carry: requires positive piece size, chunk width in tiles and unit height even where the source would not divide. An advance of 0 returns before any division, and an advance below a zero piece size or row width skips that division, so the source raises `ZeroDivisionError` only on some of the excluded inputs. The readers have the same requirement.
- The scenarios read the tests' setup as evidently intended, not as written. The tests pass a `chunk_width_in_mm_units` keyword, which neither `GridConfig` class has (`config.py:9`, `stride_idx_fns.py:21` call it `chunk_width`). `reset_config` from `config.py` rebinds `config.cfg`, not the `cfg` that `stride_idx_fns.py` reads. The tests pass `chunk_idx` in the reader parameters (`test_stride_idx_fns.py:115`, `229`), but the reader reads `cfg.chunk_idx`. The model takes these as the record's `chunkWidth` and `chunkIdx`.
- Integer width: Python integers are unbounded, as are the model's.
