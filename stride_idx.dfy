/** The address side of stride_idx_fns.py: projecting a tile coordinate to a
    slice coordinate and to its slice-local and ring-global flat indices, and
    the granular reader that emits those indices batch by batch. */
module StrideIdx {
  import Arith
  import Stride
  import Config

  /** A (row, column) position inside one node's slice. */
  datatype SliceCoord = SliceCoord(row: int, col: int)

  /** Which flat index a batch reports. */
  datatype Space = SliceSpace | GlobalSpace

  /** The placement indices name an M-block of this core, and a chunk lying
      inside an N-block of this slice. */
  predicate Placed(g: Config.Geometry) {
    && 0 <= g.mBlockIdx < g.mUnitBlocksPerCore
    && 0 <= g.nBlockIdx < g.nBlocksPerSlice
    && 0 <= g.chunkIdx && (g.chunkIdx + 1) * g.chunkWidth <= g.blocksPerNBlock
  }

  /** A consistent record with positive dimensions and in-range placement,
      and an in-range tile at a non-negative block. */
  predicate InPlace(g: Config.Geometry, t: Stride.Tile) {
    g.Derived() && g.PositiveDims() && Placed(g) && g.Shape().Holds(t) && t.block >= 0
  }

  /** coordinates_to_slice_coordinates: rows of the earlier M-blocks on this
      core and of the earlier block units come before the tile's row; the
      earlier N-blocks and chunks come before its column. For an in-range
      tile the slice coordinate decodes back, by div and mod, into the tile's
      block, the M-block index and the tile's row, and into the N-block index,
      the chunk index and the tile's column; the column lies inside the slice. */
  function ToSliceCoordinates(g: Config.Geometry, t: Stride.Tile): (c: SliceCoord)
    ensures InPlace(g, t) ==>
      && c.row / g.tilesHtPerCore == t.block
      && (c.row % g.tilesHtPerCore) / g.unitHt == g.mBlockIdx
      && c.row % g.unitHt == t.row
      && c.col / g.nBlockWt == g.nBlockIdx
      && (c.col % g.nBlockWt) / g.chunkWidthInTiles == g.chunkIdx
      && (c.col % g.nBlockWt) % g.chunkWidthInTiles == t.col
      && 0 <= c.col < g.sliceWt
  {
    var rowsBeforeThisCore := t.block * g.tilesHtPerCore;
    var rowsBeforeSlice := g.mBlockIdx * g.unitHt;
    var row := rowsBeforeThisCore + rowsBeforeSlice + t.row;
    var col := g.nBlockIdx * g.nBlockWt + g.chunkIdx * g.chunkWidthInTiles + t.col;
    RowDecode(g, t, row);
    ColDecode(g, t, col);
    SliceCoord(row, col)
  }

  /** slice_coordinates_to_slice_tile_index: row-major within the slice, so
      for a column inside the slice div and mod by the slice width recover
      the row and the column. */
  function SliceTileIndex(g: Config.Geometry, c: SliceCoord): (r: int)
    ensures 0 <= c.col < g.sliceWt ==> r / g.sliceWt == c.row && r % g.sliceWt == c.col
  {
    var r := c.row * g.sliceWt + c.col;
    Arith.DivModOf(r, g.sliceWt, c.row, c.col);
    r
  }

  /** slice_coordinates_to_global_tile_index: row-major across the ring, the
      slice occupying the columns of its ring slot. With the global width the
      slice width times the ring size, a slot in the ring and a column inside
      the slice, the index decodes into row (by the global width), slot and
      column (by the slice width). */
  function GlobalTileIndex(g: Config.Geometry, c: SliceCoord): (r: int)
    ensures 0 <= c.col < g.sliceWt && 0 <= g.sliceActualIdx < g.ringSize && g.globalWt == g.sliceWt * g.ringSize ==>
      && r / g.globalWt == c.row
      && (r % g.globalWt) / g.sliceWt == g.sliceActualIdx
      && r % g.sliceWt == c.col
  {
    var globalCol := c.col + g.sliceActualIdx * g.sliceWt;
    var r := c.row * g.globalWt + globalCol;
    RingDecode(r, c.row, g.sliceActualIdx, c.col, g.sliceWt, g.ringSize);
    r
  }

  /** The flat index the reader reports for a tile. */
  function Address(g: Config.Geometry, t: Stride.Tile, space: Space): int {
    var c := ToSliceCoordinates(g, t);
    match space
    case SliceSpace => SliceTileIndex(g, c)
    case GlobalSpace => GlobalTileIndex(g, c)
  }

  /** Every tile of a batch replaced by its address. */
  function AddressRow(g: Config.Geometry, b: seq<Stride.Tile>, space: Space): (r: seq<int>)
    ensures |r| == |b|
  {
    seq(|b|, (i: int) requires 0 <= i < |b| => Address(g, b[i], space))
  }

  /** Every tile of every batch replaced by its address. */
  function AddressBatches(g: Config.Geometry, bs: seq<seq<Stride.Tile>>, space: Space): (r: seq<seq<int>>)
    ensures |r| == |bs| && forall j :: 0 <= j < |bs| ==> |r[j]| == |bs[j]|
  {
    seq(|bs|, (j: int) requires 0 <= j < |bs| => AddressRow(g, bs[j], space))
  }

  /** Addressing one more tile appends its address. */
  lemma AddressRowSnoc(g: Config.Geometry, b: seq<Stride.Tile>, t: Stride.Tile, space: Space)
    ensures AddressRow(g, b + [t], space) == AddressRow(g, b, space) + [Address(g, t, space)]
  {
    assert forall i :: 0 <= i < |b| ==> (b + [t])[i] == b[i];
  }

  /** Addressing one more batch appends its row of addresses. */
  lemma AddressBatchesSnoc(g: Config.Geometry, bs: seq<seq<Stride.Tile>>, b: seq<Stride.Tile>, space: Space)
    ensures AddressBatches(g, bs + [b], space) == AddressBatches(g, bs, space) + [AddressRow(g, b, space)]
  {
    assert forall j :: 0 <= j < |bs| ==> (bs + [b])[j] == bs[j];
  }

  // ---------------------------------------------------------------------------
  // Projection properties
  // ---------------------------------------------------------------------------

  /** The slice row of an in-range tile decodes into block, M-block and row. */
  lemma RowDecode(g: Config.Geometry, t: Stride.Tile, row: int)
    ensures InPlace(g, t) && row == t.block * g.tilesHtPerCore + g.mBlockIdx * g.unitHt + t.row ==>
      && row / g.tilesHtPerCore == t.block
      && (row % g.tilesHtPerCore) / g.unitHt == g.mBlockIdx
      && row % g.unitHt == t.row
  {
    if InPlace(g, t) && row == t.block * g.tilesHtPerCore + g.mBlockIdx * g.unitHt + t.row {
      var h, m := g.unitHt, g.mUnitBlocksPerCore;
      var inCore := g.mBlockIdx * h + t.row;
      Arith.MixedRadixBound(g.mBlockIdx, m, h, t.row);
      Arith.DivModUnique(row, g.tilesHtPerCore, t.block, inCore);
      Arith.DivModUnique(inCore, h, g.mBlockIdx, t.row);
      assert t.block * g.tilesHtPerCore == (t.block * m) * h;
      assert row == (t.block * m + g.mBlockIdx) * h + t.row;
      Arith.DivModUnique(row, h, t.block * m + g.mBlockIdx, t.row);
    }
  }

  /** The slice column of an in-range tile decodes into N-block, chunk and
      column, and lies inside the slice. */
  lemma ColDecode(g: Config.Geometry, t: Stride.Tile, col: int)
    ensures InPlace(g, t) && col == g.nBlockIdx * g.nBlockWt + g.chunkIdx * g.chunkWidthInTiles + t.col ==>
      && col / g.nBlockWt == g.nBlockIdx
      && (col % g.nBlockWt) / g.chunkWidthInTiles == g.chunkIdx
      && (col % g.nBlockWt) % g.chunkWidthInTiles == t.col
      && 0 <= col < g.sliceWt
  {
    if InPlace(g, t) && col == g.nBlockIdx * g.nBlockWt + g.chunkIdx * g.chunkWidthInTiles + t.col {
      Config.DerivedShape(g);
      var w := g.chunkWidthInTiles;
      var inBlock := g.chunkIdx * w + t.col;
      ChunkInsideBlock(g.chunkIdx, g.chunkWidth, g.unitWt, g.blocksPerNBlock, t.col);
      Arith.DivModUnique(col, g.nBlockWt, g.nBlockIdx, inBlock);
      Arith.DivModUnique(inBlock, w, g.chunkIdx, t.col);
      Arith.MixedRadixBound(g.nBlockIdx, g.nBlocksPerSlice, g.nBlockWt, inBlock);
    }
  }

  /** A column of chunk `k`, `cw` block units wide, lies inside an N-block of
      `blocks` units when the chunk ends by the N-block's end. */
  lemma ChunkInsideBlock(k: int, cw: int, unitWt: int, blocks: int, col: int)
    requires 0 <= k && cw > 0 && unitWt > 0 && (k + 1) * cw <= blocks
    requires 0 <= col < cw * unitWt
    ensures 0 <= k * (cw * unitWt) + col < unitWt * blocks
  {
    var w := cw * unitWt;
    assert (k + 1) * w == ((k + 1) * cw) * unitWt;
    Arith.MulMono((k + 1) * cw, blocks, unitWt);
    assert (k + 1) * w == k * w + w;
    Arith.MulMono(0, k, w);
  }

  /** A position `row` rows of `n` slots of width `W` in, plus `slot` slots
      and `col` columns, decodes back into row, slot and column. */
  lemma RingDecode(x: int, row: int, slot: int, col: int, W: int, n: int)
    ensures 0 <= col < W && 0 <= slot < n && x == row * (W * n) + (col + slot * W) ==>
      && x / (W * n) == row
      && (x % (W * n)) / W == slot
      && x % W == col
  {
    if 0 <= col < W && 0 <= slot < n && x == row * (W * n) + (col + slot * W) {
      var inRow := slot * W + col;
      Arith.MixedRadixBound(slot, n, W, col);
      Arith.DivModUnique(x, W * n, row, inRow);
      Arith.DivModUnique(inRow, W, slot, col);
      assert row * (W * n) == (row * n) * W;
      Arith.DivModUnique(x, W, row * n + slot, col);
    }
  }

  /** Within one slice, and across the ring when the slot is one of the
      ring's, distinct in-range tiles get distinct addresses. */
  lemma AddressesUnique(g: Config.Geometry, t1: Stride.Tile, t2: Stride.Tile, space: Space)
    requires InPlace(g, t1) && InPlace(g, t2)
    requires space == GlobalSpace ==> 0 <= g.sliceActualIdx < g.ringSize
    ensures Address(g, t1, space) == Address(g, t2, space) <==> t1 == t2
  {
    Config.DerivedShape(g);
    var c1, c2 := ToSliceCoordinates(g, t1), ToSliceCoordinates(g, t2);
    if Address(g, t1, space) == Address(g, t2, space) {
      assert SliceTileIndex(g, c1) == SliceTileIndex(g, c2) || GlobalTileIndex(g, c1) == GlobalTileIndex(g, c2);
    }
  }

  // ---------------------------------------------------------------------------
  // Granular address reader (read_tiles_granular)
  // ---------------------------------------------------------------------------

  /** What the address reader emits: the same validation and the same batches
      as the coordinate reader, each tile replaced by its slice index and by
      its global index. */
  function AddressSpec(g: Config.Geometry, workerId: int, start: Stride.Tile, stride: int, last: int,
                       granularity: int): (r: Stride.Result<(seq<seq<int>>, seq<seq<int>>)>)
    requires g.Shape().Positive()
    ensures r.Err? <==> granularity <= 0 || stride <= 0 || last < start.block || workerId < 0
    ensures r.Err? ==> r.error == Stride.GranularSpec(workerId, start, stride, last, granularity, g.Shape()).error
    ensures r.Ok? && Stride.Carry(start, workerId, g.Shape()).block > last ==> r.value == ([], [])
  {
    match Stride.GranularSpec(workerId, start, stride, last, granularity, g.Shape())
    case Err(e) => Stride.Err(e)
    case Ok(tiles) => Stride.Ok((AddressBatches(g, tiles, SliceSpace), AddressBatches(g, tiles, GlobalSpace)))
  }

  /** Addressing commutes with concatenating the batches. */
  lemma {:induction false} FlattenAddressBatches(g: Config.Geometry, bs: seq<seq<Stride.Tile>>, space: Space)
    ensures var run := Stride.Flatten(bs);
      var addrs := Stride.Flatten(AddressBatches(g, bs, space));
      |addrs| == |run| && forall i :: 0 <= i < |run| ==> addrs[i] == Address(g, run[i], space)
    decreases |bs|
  {
    if |bs| > 0 {
      FlattenAddressBatches(g, bs[1..], space);
      assert AddressBatches(g, bs, space)[1..] == AddressBatches(g, bs[1..], space);
    }
  }

  /** Each emitted address is the address of the tile the coordinate reader
      visits at that place: the batches have the coordinate reader's sizes,
      and concatenated they are the addresses of `first, first + stride, ...`
      in order, with first the start advanced by the worker id. */
  lemma AddressRunCorrect(g: Config.Geometry, workerId: int, start: Stride.Tile, stride: int, last: int,
                          granularity: int, space: Space)
    requires g.Shape().Consistent() && g.Shape().Holds(start)
    requires granularity > 0 && stride > 0 && start.block <= last && workerId >= 0
    ensures var r := AddressSpec(g, workerId, start, stride, last, granularity);
      var tiles := Stride.GranularSpec(workerId, start, stride, last, granularity, g.Shape()).value;
      var batches := if space == SliceSpace then r.value.0 else r.value.1;
      var addrs := Stride.Flatten(batches);
      && r.Ok?
      && |batches| == |tiles| && (forall j :: 0 <= j < |tiles| ==> |batches[j]| == |tiles[j]|)
      && |addrs| == |Stride.Flatten(tiles)|
      && forall i :: 0 <= i < |addrs| ==>
           addrs[i] == Address(g, g.Shape().Decode(g.Shape().Linear(start) + workerId + i * stride), space)
  {
    var tiles := Stride.GranularSpec(workerId, start, stride, last, granularity, g.Shape()).value;
    Stride.GranularRunCorrect(workerId, start, stride, last, granularity, g.Shape());
    FlattenAddressBatches(g, tiles, space);
  }

  /** read_tiles_granular of stride_idx_fns.py, returning the slice-index and
      global-index batches instead of printing them. The chunk geometry the
      source fails to pass on comes from the configuration snapshot. */
  method ReadTilesGranular(g: Config.Geometry, workerId: int, start: Stride.Tile, stride: int, last: int,
                           granularity: int)
    returns (r: Stride.Result<(seq<seq<int>>, seq<seq<int>>)>)
    requires g.Shape().Positive()
    ensures r == AddressSpec(g, workerId, start, stride, last, granularity)
  {
    var s := g.Shape();
    if granularity <= 0 { return Stride.Err(Stride.GranularityNotPositive); }
    if stride <= 0 { return Stride.Err(Stride.StrideNotPositive); }
    if last < start.block { return Stride.Err(Stride.LastBeforeStart); }
    var next := Stride.NextTile(start, workerId, s);
    if next.Err? { return Stride.Err(next.error); }
    var cur := next.value;
    if cur.block > last { return Stride.Ok(([], [])); }
    var tilesToRead := Stride.TilesToRead(cur, stride, last, s);
    ghost var total: nat := if tilesToRead > 0 then tilesToRead else 0;
    assert Stride.GranularSpec(workerId, start, stride, last, granularity, s)
           == Stride.Ok(Stride.Chunked(Stride.Walk(cur, stride, total, s), granularity));
    var sliceIdxs, globalIdxs := ReadRun(g, cur, stride, tilesToRead, granularity);
    return Stride.Ok((sliceIdxs, globalIdxs));
  }

  /** The batch loop of read_tiles_granular: `count` tiles from `first` (none
      when `count` is not positive), read batch by batch and projected. */
  method ReadRun(g: Config.Geometry, first: Stride.Tile, stride: int, count: int, granularity: int)
    returns (sliceIdxs: seq<seq<int>>, globalIdxs: seq<seq<int>>)
    requires g.Shape().Positive() && stride > 0 && granularity > 0
    ensures var tiles := Stride.Chunked(Stride.Walk(first, stride, if count > 0 then count else 0, g.Shape()), granularity);
      sliceIdxs == AddressBatches(g, tiles, SliceSpace) && globalIdxs == AddressBatches(g, tiles, GlobalSpace)
  {
    var s := g.Shape();
    var cur := first;
    var tilesToRead := count;
    ghost var total: nat := if count > 0 then count else 0;
    ghost var tiles: seq<seq<Stride.Tile>> := [];
    sliceIdxs, globalIdxs := [], [];
    while tilesToRead > 0
      invariant tiles + Stride.Chunked(Stride.Walk(cur, stride, if tilesToRead > 0 then tilesToRead else 0, s), granularity)
                == Stride.Chunked(Stride.Walk(first, stride, total, s), granularity)
      invariant sliceIdxs == AddressBatches(g, tiles, SliceSpace)
      invariant globalIdxs == AddressBatches(g, tiles, GlobalSpace)
    {
      var step := Stride.Min(tilesToRead, granularity);
      Stride.ChunkedWalkStep(cur, stride, tilesToRead, granularity, s);
      var sliceBatch, globalBatch;
      ghost var batch := Stride.Walk(cur, stride, step, s);
      ghost var rest := Stride.Chunked(Stride.Walk(Stride.Iterate(cur, stride, step, s), stride, tilesToRead - step, s), granularity);
      assert tiles + [batch] + rest == tiles + ([batch] + rest);
      sliceBatch, globalBatch, cur := ReadBatch(g, cur, stride, step);
      AddressBatchesSnoc(g, tiles, batch, SliceSpace);
      AddressBatchesSnoc(g, tiles, batch, GlobalSpace);
      tiles := tiles + [batch];
      sliceIdxs := sliceIdxs + [sliceBatch];
      globalIdxs := globalIdxs + [globalBatch];
      tilesToRead := tilesToRead - step;
    }
    assert Stride.Walk(cur, stride, 0, s) == [];
    assert tiles + [] == tiles;
  }

  /** The inner loop of read_tiles_granular: `count` tiles from `from`, each
      projected to both indices before the coordinate advances by `stride`. */
  method ReadBatch(g: Config.Geometry, from: Stride.Tile, stride: int, count: nat)
    returns (sliceBatch: seq<int>, globalBatch: seq<int>, next: Stride.Tile)
    requires g.Shape().Positive() && stride >= 0
    ensures sliceBatch == AddressRow(g, Stride.Walk(from, stride, count, g.Shape()), SliceSpace)
    ensures globalBatch == AddressRow(g, Stride.Walk(from, stride, count, g.Shape()), GlobalSpace)
    ensures next == Stride.Iterate(from, stride, count, g.Shape())
  {
    var s := g.Shape();
    var cur := from;
    ghost var batch: seq<Stride.Tile> := [];
    sliceBatch, globalBatch := [], [];
    for i := 0 to count
      invariant batch == Stride.Walk(from, stride, i, s)
      invariant cur == Stride.Iterate(from, stride, i, s)
      invariant sliceBatch == AddressRow(g, batch, SliceSpace)
      invariant globalBatch == AddressRow(g, batch, GlobalSpace)
    {
      var sc := ToSliceCoordinates(g, cur);
      AddressRowSnoc(g, batch, cur, SliceSpace);
      AddressRowSnoc(g, batch, cur, GlobalSpace);
      batch := batch + [cur];
      cur := Stride.NextTile(cur, stride, s).value;
      sliceBatch := sliceBatch + [SliceTileIndex(g, sc)];
      globalBatch := globalBatch + [GlobalTileIndex(g, sc)];
    }
    next := cur;
  }
}
