/** The grid configuration of config.py (and its copy in stride_idx_fns.py):
    primary dimensions, placement indices, and six derived dimensions that
    recompute_derived keeps equal to products of the primary ones. */
module Config {
  import Stride

  /** A snapshot of the configuration record, the immutable value the stride
      engine reads. Widths and heights are in tiles unless named in units. */
  datatype Geometry = Geometry(
    // primary dimensions
    unitWt: int,              // mm_block_unit_wt
    blocksPerNBlock: int,     // mm_blocks_per_N_block
    chunkWidth: int,          // chunk_width, in block units
    unitHt: int,              // mm_block_unit_ht
    mUnitBlocksPerCore: int,  // mm_M_unit_blocks_per_core
    nBlocksPerSlice: int,     // mm_N_blocks_per_slice
    ringSize: int,            // ring_size
    // placement indices
    nBlockIdx: int,           // N_block_idx
    mBlockIdx: int,           // M_block_idx
    chunkIdx: int,            // chunk_idx
    sliceActualIdx: int,      // slice_actual_idx, the ring slot
    // derived dimensions
    nBlockWt: int,            // N_block_wt
    sliceWt: int,             // slice_Wt
    tilesHtPerCore: int,      // tiles_ht_per_core
    chunkWidthInTiles: int,   // chunk_width_in_tiles
    chunkPieceSize: int,      // chunk_piece_size
    globalWt: int             // global_Wt
  )
  {
    /** Every derived field holds the product recompute_derived assigns it. */
    predicate Derived() {
      && nBlockWt == unitWt * blocksPerNBlock
      && sliceWt == nBlockWt * nBlocksPerSlice
      && tilesHtPerCore == unitHt * mUnitBlocksPerCore
      && chunkWidthInTiles == chunkWidth * unitWt
      && chunkPieceSize == unitHt * chunkWidthInTiles
      && globalWt == sliceWt * ringSize
    }

    /** All primary dimensions are positive. */
    predicate PositiveDims() {
      && unitWt > 0 && blocksPerNBlock > 0 && chunkWidth > 0 && unitHt > 0
      && mUnitBlocksPerCore > 0 && nBlocksPerSlice > 0 && ringSize > 0
    }

    /** The primary dimensions and placement indices agree with `o`'s. */
    predicate SamePrimary(o: Geometry) {
      && unitWt == o.unitWt && blocksPerNBlock == o.blocksPerNBlock && chunkWidth == o.chunkWidth
      && unitHt == o.unitHt && mUnitBlocksPerCore == o.mUnitBlocksPerCore
      && nBlocksPerSlice == o.nBlocksPerSlice && ringSize == o.ringSize
      && nBlockIdx == o.nBlockIdx && mBlockIdx == o.mBlockIdx && chunkIdx == o.chunkIdx
      && sliceActualIdx == o.sliceActualIdx
    }

    /** The three numbers the coordinate advance is parameterised by. */
    function Shape(): Stride.Shape {
      Stride.Shape(chunkPieceSize, chunkWidthInTiles, unitHt)
    }
  }

  /** recompute_derived on a snapshot: the six derived fields, in the source's
      order, each from primary fields or from derived fields set before it. */
  function Recompute(g: Geometry): (r: Geometry)
    ensures r.Derived()
    ensures r.SamePrimary(g)
  {
    var nBlockWt := g.unitWt * g.blocksPerNBlock;
    var sliceWt := nBlockWt * g.nBlocksPerSlice;
    var tilesHtPerCore := g.unitHt * g.mUnitBlocksPerCore;
    var chunkWidthInTiles := g.chunkWidth * g.unitWt;
    var chunkPieceSize := g.unitHt * chunkWidthInTiles;
    var globalWt := sliceWt * g.ringSize;
    g.(nBlockWt := nBlockWt, sliceWt := sliceWt, tilesHtPerCore := tilesHtPerCore,
       chunkWidthInTiles := chunkWidthInTiles, chunkPieceSize := chunkPieceSize, globalWt := globalWt)
  }

  /** A snapshot whose derived fields are already consistent is a fixed point
      of recompute_derived, so recomputing twice is recomputing once. */
  lemma RecomputeFixesDerived(g: Geometry)
    ensures g.Derived() <==> Recompute(g) == g
    ensures Recompute(Recompute(g)) == Recompute(g)
  {
  }

  /** Positive primary dimensions give positive derived ones, and the piece
      size is exactly block height times chunk width in tiles, which is what
      the coordinate advance needs of its parameters. */
  lemma DerivedShape(g: Geometry)
    requires g.Derived() && g.PositiveDims()
    ensures g.Shape().Consistent()
    ensures g.nBlockWt > 0 && g.sliceWt > 0 && g.tilesHtPerCore > 0 && g.globalWt > 0
  {
    assert g.chunkWidthInTiles > 0 by { PositiveProduct(g.chunkWidth, g.unitWt); }
    PositiveProduct(g.unitHt, g.chunkWidthInTiles);
    PositiveProduct(g.unitWt, g.blocksPerNBlock);
    PositiveProduct(g.nBlockWt, g.nBlocksPerSlice);
    PositiveProduct(g.unitHt, g.mUnitBlocksPerCore);
    PositiveProduct(g.sliceWt, g.ringSize);
  }

  lemma PositiveProduct(a: int, b: int)
    requires a > 0 && b > 0
    ensures a * b > 0
  {
    assert a * b == (a - 1) * b + b;
    assert (a - 1) * b >= 0;
  }

  /** The configuration object: a record whose derived fields are assigned in
      place by RecomputeDerived, which construction always runs. */
  class GridConfig {
    var unitWt: int
    var blocksPerNBlock: int
    var chunkWidth: int
    var unitHt: int
    var mUnitBlocksPerCore: int
    var nBlocksPerSlice: int
    var ringSize: int
    var nBlockIdx: int
    var mBlockIdx: int
    var chunkIdx: int
    var sliceActualIdx: int
    var nBlockWt: int
    var sliceWt: int
    var tilesHtPerCore: int
    var chunkWidthInTiles: int
    var chunkPieceSize: int
    var globalWt: int

    /** The record's current value. */
    function Snapshot(): Geometry
      reads this
    {
      Geometry(unitWt, blocksPerNBlock, chunkWidth, unitHt, mUnitBlocksPerCore, nBlocksPerSlice, ringSize,
               nBlockIdx, mBlockIdx, chunkIdx, sliceActualIdx,
               nBlockWt, sliceWt, tilesHtPerCore, chunkWidthInTiles, chunkPieceSize, globalWt)
    }

    ghost predicate Valid()
      reads this
    {
      Snapshot().Derived()
    }

    /** Construction stores the primary values and then runs RecomputeDerived,
        so the derived fields are consistent from the start. */
    constructor (unitWt: int, blocksPerNBlock: int, chunkWidth: int, unitHt: int,
                 mUnitBlocksPerCore: int, nBlocksPerSlice: int, ringSize: int,
                 nBlockIdx: int, mBlockIdx: int, chunkIdx: int, sliceActualIdx: int)
      ensures Valid()
      ensures Snapshot() == Recompute(Geometry(unitWt, blocksPerNBlock, chunkWidth, unitHt,
                                               mUnitBlocksPerCore, nBlocksPerSlice, ringSize,
                                               nBlockIdx, mBlockIdx, chunkIdx, sliceActualIdx,
                                               0, 0, 0, 0, 0, 0))
    {
      this.unitWt, this.blocksPerNBlock, this.chunkWidth, this.unitHt := unitWt, blocksPerNBlock, chunkWidth, unitHt;
      this.mUnitBlocksPerCore, this.nBlocksPerSlice, this.ringSize := mUnitBlocksPerCore, nBlocksPerSlice, ringSize;
      this.nBlockIdx, this.mBlockIdx, this.chunkIdx, this.sliceActualIdx := nBlockIdx, mBlockIdx, chunkIdx, sliceActualIdx;
      nBlockWt, sliceWt, tilesHtPerCore, chunkWidthInTiles, chunkPieceSize, globalWt := 0, 0, 0, 0, 0, 0;
      new;
      RecomputeDerived();
    }

    /** recompute_derived: assigns exactly the six derived fields; the primary
        fields are untouched, and on an already consistent record nothing
        changes. */
    method RecomputeDerived()
      modifies this
      ensures Valid()
      ensures Snapshot() == Recompute(old(Snapshot()))
      ensures old(Valid()) ==> Snapshot() == old(Snapshot())
    {
      nBlockWt := unitWt * blocksPerNBlock;
      sliceWt := nBlockWt * nBlocksPerSlice;
      tilesHtPerCore := unitHt * mUnitBlocksPerCore;
      chunkWidthInTiles := chunkWidth * unitWt;
      chunkPieceSize := unitHt * chunkWidthInTiles;
      globalWt := sliceWt * ringSize;
      RecomputeFixesDerived(old(Snapshot()));
    }
  }
}
