/** The scenarios of test_stride_idx_fns.py, stated of the address reader's
    specification: for each test record, the run of tiles the reader visits,
    its batches, and the exact slice and global index lists the test expects. */
module Scenarios {
  import Stride
  import Config
  import StrideIdx

  /** The record built by the tests: primary dimensions and placement indices
      given, derived fields recomputed as construction does. */
  function TestGeometry(chunkWidth: int, nBlockIdx: int, mBlockIdx: int, chunkIdx: int, sliceActualIdx: int)
    : Config.Geometry
  {
    Config.Recompute(Config.Geometry(2, 4, chunkWidth, 2, 4, 2, 2, nBlockIdx, mBlockIdx, chunkIdx, sliceActualIdx,
                                     0, 0, 0, 0, 0, 0))
  }

  /** Unfolding the batching at position `i` of a run. */
  lemma ChunkedAt<T>(xs: seq<T>, i: nat, granularity: int)
    requires granularity > 0 && i < |xs|
    ensures var m := Stride.Min(|xs| - i, granularity);
      Stride.Chunked(xs[i..], granularity) == [xs[i..i + m]] + Stride.Chunked(xs[i + m..], granularity)
  {
    var m := Stride.Min(|xs| - i, granularity);
    assert xs[i..][..m] == xs[i..i + m];
    assert xs[i..][m..] == xs[i + m..];
  }

  /** Every tile of every batch replaced by `B * block + R * row + C + col`. */
  function AffineIndices(bs: seq<seq<Stride.Tile>>, B: int, R: int, C: int): seq<seq<int>> {
    seq(|bs|, (j: int) requires 0 <= j < |bs| =>
      seq(|bs[j]|, (i: int) requires 0 <= i < |bs[j]| => B * bs[j][i].block + R * bs[j][i].row + C + bs[j][i].col))
  }

  /** A record whose addresses have a closed form addresses batches by it. */
  lemma AddressBatchesAffine(g: Config.Geometry, bs: seq<seq<Stride.Tile>>, space: StrideIdx.Space, B: int, R: int, C: int)
    requires forall t: Stride.Tile :: StrideIdx.Address(g, t, space) == B * t.block + R * t.row + C + t.col
    ensures StrideIdx.AddressBatches(g, bs, space) == AffineIndices(bs, B, R, C)
  {
    var a := AffineIndices(bs, B, R, C);
    forall j | 0 <= j < |bs|
      ensures StrideIdx.AddressRow(g, bs[j], space) == a[j]
    {
    }
  }

  /** A run whose every tile is the carry of the one before, from `first`,
      is the walk from `first`. */
  lemma WalkAlong(first: Stride.Tile, stride: int, s: Stride.Shape, run: seq<Stride.Tile>)
    requires s.Positive() && stride >= 0 && |run| > 0 && run[0] == first
    requires forall j :: 0 <= j < |run| - 1 ==> Stride.Carry(run[j], stride, s) == run[j + 1]
    ensures Stride.Walk(first, stride, |run|, s) == run
  {
    forall k | 0 <= k < |run|
      ensures Stride.Walk(first, stride, |run|, s)[k] == run[k]
    {
      IterateAlong(first, stride, s, run, k);
    }
  }

  lemma {:induction false} IterateAlong(first: Stride.Tile, stride: int, s: Stride.Shape, run: seq<Stride.Tile>, k: nat)
    requires s.Positive() && stride >= 0 && |run| > 0 && run[0] == first
    requires forall j :: 0 <= j < |run| - 1 ==> Stride.Carry(run[j], stride, s) == run[j + 1]
    requires k < |run|
    ensures Stride.Iterate(first, stride, k, s) == run[k]
  {
    if k > 0 {
      IterateAlong(first, stride, s, run, k - 1);
    }
  }

  /** The strided run behind BasicConfiguration, in visiting order. */
  function BasicConfigurationRun(): seq<Stride.Tile> {
    [Stride.Tile(0, 0, 0), Stride.Tile(0, 2, 0), Stride.Tile(1, 0, 0), Stride.Tile(1, 2, 0),
     Stride.Tile(0, 0, 1), Stride.Tile(0, 2, 1), Stride.Tile(1, 0, 1), Stride.Tile(1, 2, 1),
     Stride.Tile(0, 0, 2), Stride.Tile(0, 2, 2), Stride.Tile(1, 0, 2), Stride.Tile(1, 2, 2),
     Stride.Tile(0, 0, 3), Stride.Tile(0, 2, 3), Stride.Tile(1, 0, 3), Stride.Tile(1, 2, 3)]
  }

  /** The run behind BasicConfiguration cut into batches of 4. */
  function BasicConfigurationTileBatches(): seq<seq<Stride.Tile>> {
    [[Stride.Tile(0, 0, 0), Stride.Tile(0, 2, 0), Stride.Tile(1, 0, 0), Stride.Tile(1, 2, 0)],
     [Stride.Tile(0, 0, 1), Stride.Tile(0, 2, 1), Stride.Tile(1, 0, 1), Stride.Tile(1, 2, 1)],
     [Stride.Tile(0, 0, 2), Stride.Tile(0, 2, 2), Stride.Tile(1, 0, 2), Stride.Tile(1, 2, 2)],
     [Stride.Tile(0, 0, 3), Stride.Tile(0, 2, 3), Stride.Tile(1, 0, 3), Stride.Tile(1, 2, 3)]]
  }

  /** Advancing from the first tile behind BasicConfiguration visits its run. */
  lemma BasicConfigurationWalk()
    ensures Stride.Walk(Stride.Tile(0, 0, 0), 2, 16, Stride.Shape(8, 4, 2)) == BasicConfigurationRun()
  {
    WalkAlong(Stride.Tile(0, 0, 0), 2, Stride.Shape(8, 4, 2), BasicConfigurationRun());
  }

  /** Cutting the run behind BasicConfiguration into batches of 4. */
  lemma BasicConfigurationChunks()
    ensures Stride.Chunked(BasicConfigurationRun(), 4) == BasicConfigurationTileBatches()
  {
    var w := BasicConfigurationRun();
    assert w[0..] == w;
    ChunkedAt(w, 0, 4);
    ChunkedAt(w, 4, 4);
    ChunkedAt(w, 8, 4);
    ChunkedAt(w, 12, 4);
    assert w[16..] == [];
    assert w[0..4] == BasicConfigurationTileBatches()[0];
    assert w[4..8] == BasicConfigurationTileBatches()[1];
    assert w[8..12] == BasicConfigurationTileBatches()[2];
    assert w[12..16] == BasicConfigurationTileBatches()[3];
    assert Stride.Chunked(w, 4) == [w[0..4], w[4..8], w[8..12], w[12..16]];
  }

  /** The tile batches behind BasicConfiguration. */
  lemma BasicConfigurationTiles()
    ensures Stride.GranularSpec(0, Stride.Tile(0, 0, 0), 2, 3, 4, TestGeometry(2, 0, 0, 0, 0).Shape())
      == Stride.Ok(BasicConfigurationTileBatches())
  {
    var s := TestGeometry(2, 0, 0, 0, 0).Shape();
    assert s == Stride.Shape(8, 4, 2);
    var first := Stride.Tile(0, 0, 0);
    assert Stride.NextTile(Stride.Tile(0, 0, 0), 0, s) == Stride.Ok(first);
    assert Stride.TilesToRead(first, 2, 3, s) == 16;
    BasicConfigurationWalk();
    BasicConfigurationChunks();
  }

  /** The addresses BasicConfiguration's record gives a tile, in closed form. */
  lemma BasicConfigurationAddresses(t: Stride.Tile)
    ensures StrideIdx.Address(TestGeometry(2, 0, 0, 0, 0), t, StrideIdx.SliceSpace) == 128 * t.block + 16 * t.row + t.col
    ensures StrideIdx.Address(TestGeometry(2, 0, 0, 0, 0), t, StrideIdx.GlobalSpace) == 256 * t.block + 32 * t.row + t.col
  {
    assert TestGeometry(2, 0, 0, 0, 0) == Config.Geometry(2, 4, 2, 2, 4, 2, 2, 0, 0, 0, 0, 8, 16, 8, 4, 8, 32);
  }

  /** The addresses of the batches behind BasicConfiguration, in closed form. */
  lemma BasicConfigurationAddressForms()
    ensures StrideIdx.AddressBatches(TestGeometry(2, 0, 0, 0, 0), BasicConfigurationTileBatches(), StrideIdx.SliceSpace) == AffineIndices(BasicConfigurationTileBatches(), 128, 16, 0)
    ensures StrideIdx.AddressBatches(TestGeometry(2, 0, 0, 0, 0), BasicConfigurationTileBatches(), StrideIdx.GlobalSpace) == AffineIndices(BasicConfigurationTileBatches(), 256, 32, 0)
  {
    var g := TestGeometry(2, 0, 0, 0, 0);
    forall t: Stride.Tile
      ensures StrideIdx.Address(g, t, StrideIdx.SliceSpace) == 128 * t.block + 16 * t.row + t.col
      ensures StrideIdx.Address(g, t, StrideIdx.GlobalSpace) == 256 * t.block + 32 * t.row + t.col
    {
      BasicConfigurationAddresses(t);
    }
    AddressBatchesAffine(g, BasicConfigurationTileBatches(), StrideIdx.SliceSpace, 128, 16, 0);
    AddressBatchesAffine(g, BasicConfigurationTileBatches(), StrideIdx.GlobalSpace, 256, 32, 0);
  }

  /** The slice index lists of BasicConfiguration, evaluated. */
  lemma BasicConfigurationSliceIndices()
    ensures AffineIndices(BasicConfigurationTileBatches(), 128, 16, 0)
      == [[0, 2, 16, 18], [128, 130, 144, 146], [256, 258, 272, 274], [384, 386, 400, 402]]
  {
    var a := AffineIndices(BasicConfigurationTileBatches(), 128, 16, 0);
    assert a[0] == [0, 2, 16, 18];
    assert a[1] == [128, 130, 144, 146];
    assert a[2] == [256, 258, 272, 274];
    assert a[3] == [384, 386, 400, 402];
  }

  /** The global index lists of BasicConfiguration, evaluated. */
  lemma BasicConfigurationGlobalIndices()
    ensures AffineIndices(BasicConfigurationTileBatches(), 256, 32, 0)
      == [[0, 2, 32, 34], [256, 258, 288, 290], [512, 514, 544, 546], [768, 770, 800, 802]]
  {
    var a := AffineIndices(BasicConfigurationTileBatches(), 256, 32, 0);
    assert a[0] == [0, 2, 32, 34];
    assert a[1] == [256, 258, 288, 290];
    assert a[2] == [512, 514, 544, 546];
    assert a[3] == [768, 770, 800, 802];
  }

  /** test_basic_configuration: worker 0, stride 2, last block 3, batches of 4. */
  lemma BasicConfiguration()
    ensures StrideIdx.AddressSpec(TestGeometry(2, 0, 0, 0, 0), 0, Stride.Tile(0, 0, 0), 2, 3, 4) == Stride.Ok((
      [[0, 2, 16, 18], [128, 130, 144, 146], [256, 258, 272, 274], [384, 386, 400, 402]],
      [[0, 2, 32, 34], [256, 258, 288, 290], [512, 514, 544, 546], [768, 770, 800, 802]]))
  {
    BasicConfigurationTiles();
    BasicConfigurationAddressForms();
    BasicConfigurationSliceIndices();
    BasicConfigurationGlobalIndices();
  }

  /** The strided run behind SliceActualIdxOne, in visiting order. */
  function SliceActualIdxOneRun(): seq<Stride.Tile> {
    [Stride.Tile(0, 0, 0), Stride.Tile(0, 3, 0), Stride.Tile(1, 2, 0), Stride.Tile(0, 1, 1),
     Stride.Tile(1, 0, 1), Stride.Tile(1, 3, 1), Stride.Tile(0, 2, 2), Stride.Tile(1, 1, 2)]
  }

  /** The run behind SliceActualIdxOne cut into batches of 5. */
  function SliceActualIdxOneTileBatches(): seq<seq<Stride.Tile>> {
    [[Stride.Tile(0, 0, 0), Stride.Tile(0, 3, 0), Stride.Tile(1, 2, 0), Stride.Tile(0, 1, 1), Stride.Tile(1, 0, 1)],
     [Stride.Tile(1, 3, 1), Stride.Tile(0, 2, 2), Stride.Tile(1, 1, 2)]]
  }

  /** Advancing from the first tile behind SliceActualIdxOne visits its run. */
  lemma SliceActualIdxOneWalk()
    ensures Stride.Walk(Stride.Tile(0, 0, 0), 3, 8, Stride.Shape(8, 4, 2)) == SliceActualIdxOneRun()
  {
    WalkAlong(Stride.Tile(0, 0, 0), 3, Stride.Shape(8, 4, 2), SliceActualIdxOneRun());
  }

  /** Cutting the run behind SliceActualIdxOne into batches of 5. */
  lemma SliceActualIdxOneChunks()
    ensures Stride.Chunked(SliceActualIdxOneRun(), 5) == SliceActualIdxOneTileBatches()
  {
    var w := SliceActualIdxOneRun();
    assert w[0..] == w;
    ChunkedAt(w, 0, 5);
    ChunkedAt(w, 5, 5);
    assert w[8..] == [];
    assert w[0..5] == SliceActualIdxOneTileBatches()[0];
    assert w[5..8] == SliceActualIdxOneTileBatches()[1];
    assert Stride.Chunked(w, 5) == [w[0..5], w[5..8]];
  }

  /** The tile batches behind SliceActualIdxOne. */
  lemma SliceActualIdxOneTiles()
    ensures Stride.GranularSpec(0, Stride.Tile(0, 0, 0), 3, 2, 5, TestGeometry(2, 0, 0, 0, 1).Shape())
      == Stride.Ok(SliceActualIdxOneTileBatches())
  {
    var s := TestGeometry(2, 0, 0, 0, 1).Shape();
    assert s == Stride.Shape(8, 4, 2);
    var first := Stride.Tile(0, 0, 0);
    assert Stride.NextTile(Stride.Tile(0, 0, 0), 0, s) == Stride.Ok(first);
    assert Stride.TilesToRead(first, 3, 2, s) == 8;
    SliceActualIdxOneWalk();
    SliceActualIdxOneChunks();
  }

  /** The addresses SliceActualIdxOne's record gives a tile, in closed form. */
  lemma SliceActualIdxOneAddresses(t: Stride.Tile)
    ensures StrideIdx.Address(TestGeometry(2, 0, 0, 0, 1), t, StrideIdx.SliceSpace) == 128 * t.block + 16 * t.row + t.col
    ensures StrideIdx.Address(TestGeometry(2, 0, 0, 0, 1), t, StrideIdx.GlobalSpace) == 256 * t.block + 32 * t.row + 16 + t.col
  {
    assert TestGeometry(2, 0, 0, 0, 1) == Config.Geometry(2, 4, 2, 2, 4, 2, 2, 0, 0, 0, 1, 8, 16, 8, 4, 8, 32);
  }

  /** The addresses of the batches behind SliceActualIdxOne, in closed form. */
  lemma SliceActualIdxOneAddressForms()
    ensures StrideIdx.AddressBatches(TestGeometry(2, 0, 0, 0, 1), SliceActualIdxOneTileBatches(), StrideIdx.SliceSpace) == AffineIndices(SliceActualIdxOneTileBatches(), 128, 16, 0)
    ensures StrideIdx.AddressBatches(TestGeometry(2, 0, 0, 0, 1), SliceActualIdxOneTileBatches(), StrideIdx.GlobalSpace) == AffineIndices(SliceActualIdxOneTileBatches(), 256, 32, 16)
  {
    var g := TestGeometry(2, 0, 0, 0, 1);
    forall t: Stride.Tile
      ensures StrideIdx.Address(g, t, StrideIdx.SliceSpace) == 128 * t.block + 16 * t.row + t.col
      ensures StrideIdx.Address(g, t, StrideIdx.GlobalSpace) == 256 * t.block + 32 * t.row + 16 + t.col
    {
      SliceActualIdxOneAddresses(t);
    }
    AddressBatchesAffine(g, SliceActualIdxOneTileBatches(), StrideIdx.SliceSpace, 128, 16, 0);
    AddressBatchesAffine(g, SliceActualIdxOneTileBatches(), StrideIdx.GlobalSpace, 256, 32, 16);
  }

  /** The slice index lists of SliceActualIdxOne, evaluated. */
  lemma SliceActualIdxOneSliceIndices()
    ensures AffineIndices(SliceActualIdxOneTileBatches(), 128, 16, 0)
      == [[0, 3, 18, 129, 144], [147, 258, 273]]
  {
    var a := AffineIndices(SliceActualIdxOneTileBatches(), 128, 16, 0);
    assert a[0] == [0, 3, 18, 129, 144];
    assert a[1] == [147, 258, 273];
  }

  /** The global index lists of SliceActualIdxOne, evaluated. */
  lemma SliceActualIdxOneGlobalIndices()
    ensures AffineIndices(SliceActualIdxOneTileBatches(), 256, 32, 16)
      == [[16, 19, 50, 273, 304], [307, 530, 561]]
  {
    var a := AffineIndices(SliceActualIdxOneTileBatches(), 256, 32, 16);
    assert a[0] == [16, 19, 50, 273, 304];
    assert a[1] == [307, 530, 561];
  }

  /** test_slice_actual_idx_1: ring slot 1, stride 3, last block 2, batches of 5. */
  lemma SliceActualIdxOne()
    ensures StrideIdx.AddressSpec(TestGeometry(2, 0, 0, 0, 1), 0, Stride.Tile(0, 0, 0), 3, 2, 5) == Stride.Ok((
      [[0, 3, 18, 129, 144], [147, 258, 273]],
      [[16, 19, 50, 273, 304], [307, 530, 561]]))
  {
    SliceActualIdxOneTiles();
    SliceActualIdxOneAddressForms();
    SliceActualIdxOneSliceIndices();
    SliceActualIdxOneGlobalIndices();
  }

  /** The strided run behind MBlockIdxOne, in visiting order. */
  function MBlockIdxOneRun(): seq<Stride.Tile> {
    [Stride.Tile(0, 0, 0), Stride.Tile(0, 3, 0), Stride.Tile(1, 0, 0), Stride.Tile(1, 3, 0),
     Stride.Tile(0, 0, 1), Stride.Tile(0, 3, 1), Stride.Tile(1, 0, 1), Stride.Tile(1, 3, 1),
     Stride.Tile(0, 0, 2), Stride.Tile(0, 3, 2), Stride.Tile(1, 0, 2), Stride.Tile(1, 3, 2),
     Stride.Tile(0, 0, 3), Stride.Tile(0, 3, 3), Stride.Tile(1, 0, 3), Stride.Tile(1, 3, 3)]
  }

  /** The run behind MBlockIdxOne cut into batches of 4. */
  function MBlockIdxOneTileBatches(): seq<seq<Stride.Tile>> {
    [[Stride.Tile(0, 0, 0), Stride.Tile(0, 3, 0), Stride.Tile(1, 0, 0), Stride.Tile(1, 3, 0)],
     [Stride.Tile(0, 0, 1), Stride.Tile(0, 3, 1), Stride.Tile(1, 0, 1), Stride.Tile(1, 3, 1)],
     [Stride.Tile(0, 0, 2), Stride.Tile(0, 3, 2), Stride.Tile(1, 0, 2), Stride.Tile(1, 3, 2)],
     [Stride.Tile(0, 0, 3), Stride.Tile(0, 3, 3), Stride.Tile(1, 0, 3), Stride.Tile(1, 3, 3)]]
  }

  /** Advancing from the first tile behind MBlockIdxOne visits its run. */
  lemma MBlockIdxOneWalk()
    ensures Stride.Walk(Stride.Tile(0, 0, 0), 3, 16, Stride.Shape(12, 6, 2)) == MBlockIdxOneRun()
  {
    WalkAlong(Stride.Tile(0, 0, 0), 3, Stride.Shape(12, 6, 2), MBlockIdxOneRun());
  }

  /** Cutting the run behind MBlockIdxOne into batches of 4. */
  lemma MBlockIdxOneChunks()
    ensures Stride.Chunked(MBlockIdxOneRun(), 4) == MBlockIdxOneTileBatches()
  {
    var w := MBlockIdxOneRun();
    assert w[0..] == w;
    ChunkedAt(w, 0, 4);
    ChunkedAt(w, 4, 4);
    ChunkedAt(w, 8, 4);
    ChunkedAt(w, 12, 4);
    assert w[16..] == [];
    assert w[0..4] == MBlockIdxOneTileBatches()[0];
    assert w[4..8] == MBlockIdxOneTileBatches()[1];
    assert w[8..12] == MBlockIdxOneTileBatches()[2];
    assert w[12..16] == MBlockIdxOneTileBatches()[3];
    assert Stride.Chunked(w, 4) == [w[0..4], w[4..8], w[8..12], w[12..16]];
  }

  /** The tile batches behind MBlockIdxOne. */
  lemma MBlockIdxOneTiles()
    ensures Stride.GranularSpec(0, Stride.Tile(0, 0, 0), 3, 3, 4, TestGeometry(3, 0, 1, 0, 0).Shape())
      == Stride.Ok(MBlockIdxOneTileBatches())
  {
    var s := TestGeometry(3, 0, 1, 0, 0).Shape();
    assert s == Stride.Shape(12, 6, 2);
    var first := Stride.Tile(0, 0, 0);
    assert Stride.NextTile(Stride.Tile(0, 0, 0), 0, s) == Stride.Ok(first);
    assert Stride.TilesToRead(first, 3, 3, s) == 16;
    MBlockIdxOneWalk();
    MBlockIdxOneChunks();
  }

  /** The addresses MBlockIdxOne's record gives a tile, in closed form. */
  lemma MBlockIdxOneAddresses(t: Stride.Tile)
    ensures StrideIdx.Address(TestGeometry(3, 0, 1, 0, 0), t, StrideIdx.SliceSpace) == 128 * t.block + 16 * t.row + 32 + t.col
    ensures StrideIdx.Address(TestGeometry(3, 0, 1, 0, 0), t, StrideIdx.GlobalSpace) == 256 * t.block + 32 * t.row + 64 + t.col
  {
    assert TestGeometry(3, 0, 1, 0, 0) == Config.Geometry(2, 4, 3, 2, 4, 2, 2, 0, 1, 0, 0, 8, 16, 8, 6, 12, 32);
  }

  /** The addresses of the batches behind MBlockIdxOne, in closed form. */
  lemma MBlockIdxOneAddressForms()
    ensures StrideIdx.AddressBatches(TestGeometry(3, 0, 1, 0, 0), MBlockIdxOneTileBatches(), StrideIdx.SliceSpace) == AffineIndices(MBlockIdxOneTileBatches(), 128, 16, 32)
    ensures StrideIdx.AddressBatches(TestGeometry(3, 0, 1, 0, 0), MBlockIdxOneTileBatches(), StrideIdx.GlobalSpace) == AffineIndices(MBlockIdxOneTileBatches(), 256, 32, 64)
  {
    var g := TestGeometry(3, 0, 1, 0, 0);
    forall t: Stride.Tile
      ensures StrideIdx.Address(g, t, StrideIdx.SliceSpace) == 128 * t.block + 16 * t.row + 32 + t.col
      ensures StrideIdx.Address(g, t, StrideIdx.GlobalSpace) == 256 * t.block + 32 * t.row + 64 + t.col
    {
      MBlockIdxOneAddresses(t);
    }
    AddressBatchesAffine(g, MBlockIdxOneTileBatches(), StrideIdx.SliceSpace, 128, 16, 32);
    AddressBatchesAffine(g, MBlockIdxOneTileBatches(), StrideIdx.GlobalSpace, 256, 32, 64);
  }

  /** The slice index lists of MBlockIdxOne, evaluated. */
  lemma MBlockIdxOneSliceIndices()
    ensures AffineIndices(MBlockIdxOneTileBatches(), 128, 16, 32)
      == [[32, 35, 48, 51], [160, 163, 176, 179], [288, 291, 304, 307], [416, 419, 432, 435]]
  {
    var a := AffineIndices(MBlockIdxOneTileBatches(), 128, 16, 32);
    assert a[0] == [32, 35, 48, 51];
    assert a[1] == [160, 163, 176, 179];
    assert a[2] == [288, 291, 304, 307];
    assert a[3] == [416, 419, 432, 435];
  }

  /** The global index lists of MBlockIdxOne, evaluated. */
  lemma MBlockIdxOneGlobalIndices()
    ensures AffineIndices(MBlockIdxOneTileBatches(), 256, 32, 64)
      == [[64, 67, 96, 99], [320, 323, 352, 355], [576, 579, 608, 611], [832, 835, 864, 867]]
  {
    var a := AffineIndices(MBlockIdxOneTileBatches(), 256, 32, 64);
    assert a[0] == [64, 67, 96, 99];
    assert a[1] == [320, 323, 352, 355];
    assert a[2] == [576, 579, 608, 611];
    assert a[3] == [832, 835, 864, 867];
  }

  /** test_m_block_idx_1: chunk width 3 units, M-block 1, stride 3, last block 3, batches of 4. */
  lemma MBlockIdxOne()
    ensures StrideIdx.AddressSpec(TestGeometry(3, 0, 1, 0, 0), 0, Stride.Tile(0, 0, 0), 3, 3, 4) == Stride.Ok((
      [[32, 35, 48, 51], [160, 163, 176, 179], [288, 291, 304, 307], [416, 419, 432, 435]],
      [[64, 67, 96, 99], [320, 323, 352, 355], [576, 579, 608, 611], [832, 835, 864, 867]]))
  {
    MBlockIdxOneTiles();
    MBlockIdxOneAddressForms();
    MBlockIdxOneSliceIndices();
    MBlockIdxOneGlobalIndices();
  }

  /** The strided run behind NBlockIdxOneMBlockIdxTwo, in visiting order. */
  function NBlockIdxOneMBlockIdxTwoRun(): seq<Stride.Tile> {
    [Stride.Tile(0, 0, 0), Stride.Tile(0, 3, 0), Stride.Tile(1, 2, 0), Stride.Tile(0, 1, 1),
     Stride.Tile(1, 0, 1), Stride.Tile(1, 3, 1), Stride.Tile(0, 2, 2), Stride.Tile(1, 1, 2),
     Stride.Tile(0, 0, 3), Stride.Tile(0, 3, 3), Stride.Tile(1, 2, 3)]
  }

  /** The run behind NBlockIdxOneMBlockIdxTwo cut into batches of 5. */
  function NBlockIdxOneMBlockIdxTwoTileBatches(): seq<seq<Stride.Tile>> {
    [[Stride.Tile(0, 0, 0), Stride.Tile(0, 3, 0), Stride.Tile(1, 2, 0), Stride.Tile(0, 1, 1), Stride.Tile(1, 0, 1)],
     [Stride.Tile(1, 3, 1), Stride.Tile(0, 2, 2), Stride.Tile(1, 1, 2), Stride.Tile(0, 0, 3), Stride.Tile(0, 3, 3)],
     [Stride.Tile(1, 2, 3)]]
  }

  /** Advancing from the first tile behind NBlockIdxOneMBlockIdxTwo visits its run. */
  lemma NBlockIdxOneMBlockIdxTwoWalk()
    ensures Stride.Walk(Stride.Tile(0, 0, 0), 3, 11, Stride.Shape(8, 4, 2)) == NBlockIdxOneMBlockIdxTwoRun()
  {
    WalkAlong(Stride.Tile(0, 0, 0), 3, Stride.Shape(8, 4, 2), NBlockIdxOneMBlockIdxTwoRun());
  }

  /** Cutting the run behind NBlockIdxOneMBlockIdxTwo into batches of 5. */
  lemma NBlockIdxOneMBlockIdxTwoChunks()
    ensures Stride.Chunked(NBlockIdxOneMBlockIdxTwoRun(), 5) == NBlockIdxOneMBlockIdxTwoTileBatches()
  {
    var w := NBlockIdxOneMBlockIdxTwoRun();
    assert w[0..] == w;
    ChunkedAt(w, 0, 5);
    ChunkedAt(w, 5, 5);
    ChunkedAt(w, 10, 5);
    assert w[11..] == [];
    assert w[0..5] == NBlockIdxOneMBlockIdxTwoTileBatches()[0];
    assert w[5..10] == NBlockIdxOneMBlockIdxTwoTileBatches()[1];
    assert w[10..11] == NBlockIdxOneMBlockIdxTwoTileBatches()[2];
    assert Stride.Chunked(w, 5) == [w[0..5], w[5..10], w[10..11]];
  }

  /** The tile batches behind NBlockIdxOneMBlockIdxTwo. */
  lemma NBlockIdxOneMBlockIdxTwoTiles()
    ensures Stride.GranularSpec(0, Stride.Tile(0, 0, 0), 3, 3, 5, TestGeometry(2, 1, 2, 1, 0).Shape())
      == Stride.Ok(NBlockIdxOneMBlockIdxTwoTileBatches())
  {
    var s := TestGeometry(2, 1, 2, 1, 0).Shape();
    assert s == Stride.Shape(8, 4, 2);
    var first := Stride.Tile(0, 0, 0);
    assert Stride.NextTile(Stride.Tile(0, 0, 0), 0, s) == Stride.Ok(first);
    assert Stride.TilesToRead(first, 3, 3, s) == 11;
    NBlockIdxOneMBlockIdxTwoWalk();
    NBlockIdxOneMBlockIdxTwoChunks();
  }

  /** The addresses NBlockIdxOneMBlockIdxTwo's record gives a tile, in closed form. */
  lemma NBlockIdxOneMBlockIdxTwoAddresses(t: Stride.Tile)
    ensures StrideIdx.Address(TestGeometry(2, 1, 2, 1, 0), t, StrideIdx.SliceSpace) == 128 * t.block + 16 * t.row + 76 + t.col
    ensures StrideIdx.Address(TestGeometry(2, 1, 2, 1, 0), t, StrideIdx.GlobalSpace) == 256 * t.block + 32 * t.row + 140 + t.col
  {
    assert TestGeometry(2, 1, 2, 1, 0) == Config.Geometry(2, 4, 2, 2, 4, 2, 2, 1, 2, 1, 0, 8, 16, 8, 4, 8, 32);
  }

  /** The addresses of the batches behind NBlockIdxOneMBlockIdxTwo, in closed form. */
  lemma NBlockIdxOneMBlockIdxTwoAddressForms()
    ensures StrideIdx.AddressBatches(TestGeometry(2, 1, 2, 1, 0), NBlockIdxOneMBlockIdxTwoTileBatches(), StrideIdx.SliceSpace) == AffineIndices(NBlockIdxOneMBlockIdxTwoTileBatches(), 128, 16, 76)
    ensures StrideIdx.AddressBatches(TestGeometry(2, 1, 2, 1, 0), NBlockIdxOneMBlockIdxTwoTileBatches(), StrideIdx.GlobalSpace) == AffineIndices(NBlockIdxOneMBlockIdxTwoTileBatches(), 256, 32, 140)
  {
    var g := TestGeometry(2, 1, 2, 1, 0);
    forall t: Stride.Tile
      ensures StrideIdx.Address(g, t, StrideIdx.SliceSpace) == 128 * t.block + 16 * t.row + 76 + t.col
      ensures StrideIdx.Address(g, t, StrideIdx.GlobalSpace) == 256 * t.block + 32 * t.row + 140 + t.col
    {
      NBlockIdxOneMBlockIdxTwoAddresses(t);
    }
    AddressBatchesAffine(g, NBlockIdxOneMBlockIdxTwoTileBatches(), StrideIdx.SliceSpace, 128, 16, 76);
    AddressBatchesAffine(g, NBlockIdxOneMBlockIdxTwoTileBatches(), StrideIdx.GlobalSpace, 256, 32, 140);
  }

  /** The slice index lists of NBlockIdxOneMBlockIdxTwo, evaluated. */
  lemma NBlockIdxOneMBlockIdxTwoSliceIndices()
    ensures AffineIndices(NBlockIdxOneMBlockIdxTwoTileBatches(), 128, 16, 76)
      == [[76, 79, 94, 205, 220], [223, 334, 349, 460, 463], [478]]
  {
    var a := AffineIndices(NBlockIdxOneMBlockIdxTwoTileBatches(), 128, 16, 76);
    assert a[0] == [76, 79, 94, 205, 220];
    assert a[1] == [223, 334, 349, 460, 463];
    assert a[2] == [478];
  }

  /** The global index lists of NBlockIdxOneMBlockIdxTwo, evaluated. */
  lemma NBlockIdxOneMBlockIdxTwoGlobalIndices()
    ensures AffineIndices(NBlockIdxOneMBlockIdxTwoTileBatches(), 256, 32, 140)
      == [[140, 143, 174, 397, 428], [431, 654, 685, 908, 911], [942]]
  {
    var a := AffineIndices(NBlockIdxOneMBlockIdxTwoTileBatches(), 256, 32, 140);
    assert a[0] == [140, 143, 174, 397, 428];
    assert a[1] == [431, 654, 685, 908, 911];
    assert a[2] == [942];
  }

  /** test_n_block_idx_1_m_block_idx_2: N-block 1, M-block 2, chunk 1, stride 3, last block 3, batches of 5. */
  lemma NBlockIdxOneMBlockIdxTwo()
    ensures StrideIdx.AddressSpec(TestGeometry(2, 1, 2, 1, 0), 0, Stride.Tile(0, 0, 0), 3, 3, 5) == Stride.Ok((
      [[76, 79, 94, 205, 220], [223, 334, 349, 460, 463], [478]],
      [[140, 143, 174, 397, 428], [431, 654, 685, 908, 911], [942]]))
  {
    NBlockIdxOneMBlockIdxTwoTiles();
    NBlockIdxOneMBlockIdxTwoAddressForms();
    NBlockIdxOneMBlockIdxTwoSliceIndices();
    NBlockIdxOneMBlockIdxTwoGlobalIndices();
  }

}
