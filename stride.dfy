/** The coordinate-advance engine of stride_fns.py: advancing a tile
    coordinate with carries, the closed-form count of strided reads left
    before a last block, and the granular batch reader that walks them. */
module Stride {
  import Arith

  /** One tile inside the repeating block/chunk structure: `row` within an
      M-block, `col` within a chunk (in tiles), `block` the M-block index. */
  datatype Tile = Tile(row: int, col: int, block: int)

  /** The three geometry numbers the engine is parameterised by: tiles in one
      chunk piece (one full block of the chunk), chunk width in tiles, and the
      block-unit height in tiles. */
  datatype Shape = Shape(pieceSize: int, widthInTiles: int, unitHt: int) {
    /** Every divisor the engine uses is positive. */
    predicate Positive() {
      pieceSize > 0 && widthInTiles > 0 && unitHt > 0
    }

    /** A piece is exactly one block-unit height of chunk rows. */
    predicate Consistent() {
      Positive() && pieceSize == unitHt * widthInTiles
    }

    /** The tile's row and column lie inside one piece. */
    predicate Holds(t: Tile) {
      0 <= t.row < unitHt && 0 <= t.col < widthInTiles
    }

    /** Position of a tile counted block by block, row by row. */
    function Linear(t: Tile): int {
      t.block * pieceSize + t.row * widthInTiles + t.col
    }

    /** The flattened formulation: split a linear position by plain div/mod. */
    function Decode(n: int): Tile
      requires Positive()
    {
      Tile((n % pieceSize) / widthInTiles, (n % pieceSize) % widthInTiles, n / pieceSize)
    }
  }

  /** The ValueError conditions raised by the engine. */
  datatype Error = NegativeAdvance | GranularityNotPositive | StrideNotPositive | LastBeforeStart

  datatype Result<T> = Ok(value: T) | Err(error: Error)

  function Min(a: int, b: int): int { if a < b then a else b }

  // ---------------------------------------------------------------------------
  // Coordinate advance (read_next_tile)
  // ---------------------------------------------------------------------------

  /** First carry stage: consume whole pieces into the block index.
      Returns the moved tile and the advance still to apply: row and column
      stay, the block only moves on, and less than a piece is left. */
  function PieceStage(t: Tile, advance: int, s: Shape): (r: (Tile, int))
    requires s.Positive() && advance >= 0
    ensures r.0.row == t.row && r.0.col == t.col && r.0.block >= t.block
    ensures 0 <= r.1 <= advance && r.1 < s.pieceSize
  {
    if advance >= s.pieceSize then
      var pieces := advance / s.pieceSize;
      assert pieces >= 1 && advance - pieces * s.pieceSize == advance % s.pieceSize by {
        Arith.DivModUnique(advance, s.pieceSize, pieces, advance % s.pieceSize);
        Arith.LeDivIff(1, advance, s.pieceSize);
      }
      (t.(block := t.block + pieces), advance - pieces * s.pieceSize)
    else
      (t, advance)
  }

  /** Second carry stage: consume whole chunk rows; a row overflow moves to
      the next block (by exactly one block). The column stays, the block
      moves on by at most one, an in-range row stays in range, and less than
      a row is left. */
  function RowStage(t: Tile, advance: int, s: Shape): (r: (Tile, int))
    requires s.Positive() && advance >= 0
    ensures r.0.col == t.col && (r.0.block == t.block || r.0.block == t.block + 1)
    ensures 0 <= t.row < s.unitHt ==> 0 <= r.0.row < s.unitHt
    ensures 0 <= r.1 <= advance && r.1 < s.widthInTiles
  {
    var w, h := s.widthInTiles, s.unitHt;
    if advance >= w then
      var rows := advance / w;
      var newRow := t.row + rows;
      var left := advance - rows * w;
      assert rows >= 1 && left == advance % w by {
        Arith.DivModUnique(advance, w, rows, advance % w);
        Arith.LeDivIff(1, advance, w);
      }
      if newRow >= h then (Tile(newRow % h, t.col, t.block + 1), left)
      else (t.(row := newRow), left)
    else
      (t, advance)
  }

  /** Third carry stage: add what is left to the column; a column overflow
      moves one row down, and a row overflow one block on. The block moves
      on by at most one, an in-range row stays in range, and a non-negative
      column lands inside the chunk. */
  function ColStage(t: Tile, advance: int, s: Shape): (r: Tile)
    requires s.Positive()
    ensures r.block == t.block || r.block == t.block + 1
    ensures 0 <= t.row < s.unitHt ==> 0 <= r.row < s.unitHt
    ensures 0 <= t.col + advance ==> 0 <= r.col < s.widthInTiles
  {
    var w, h := s.widthInTiles, s.unitHt;
    var newCol := t.col + advance;
    if newCol >= w then
      if t.row + 1 >= h then Tile(0, newCol % w, t.block + 1)
      else Tile(t.row + 1, newCol % w, t.block)
    else
      t.(col := newCol)
  }

  /** The stage invariants: each stage keeps the pending linear target and
      leaves less than one piece, then less than one row, still to apply. */
  lemma PieceStageKeepsTarget(t: Tile, advance: int, s: Shape)
    requires s.Consistent() && s.Holds(t) && advance >= 0
    ensures var (t1, a1) := PieceStage(t, advance, s);
      s.Holds(t1) && 0 <= a1 < s.pieceSize && s.Linear(t1) + a1 == s.Linear(t) + advance
  {
    if advance >= s.pieceSize {
      var q := advance / s.pieceSize;
      assert advance == q * s.pieceSize + advance % s.pieceSize;
      assert (t.block + q) * s.pieceSize == t.block * s.pieceSize + q * s.pieceSize;
    }
  }

  lemma RowStageKeepsTarget(t: Tile, advance: int, s: Shape)
    requires s.Consistent() && s.Holds(t) && 0 <= advance < s.pieceSize
    ensures var (t2, a2) := RowStage(t, advance, s);
      s.Holds(t2) && 0 <= a2 < s.widthInTiles && s.Linear(t2) + a2 == s.Linear(t) + advance
  {
    var w, h := s.widthInTiles, s.unitHt;
    if advance >= w {
      var rows := advance / w;
      var newRow := t.row + rows;
      RowSplit(advance, w, h);
      RowsMove(t, rows, s);
      if newRow >= h {
        Arith.DivModUnique(newRow, h, 1, newRow - h);
        BlockForRows(t, newRow, s);
      }
    }
  }

  lemma ColStageKeepsTarget(t: Tile, advance: int, s: Shape)
    requires s.Consistent() && s.Holds(t) && 0 <= advance < s.widthInTiles
    ensures var r := ColStage(t, advance, s);
      s.Holds(r) && s.Linear(r) == s.Linear(t) + advance
  {
    var w, h := s.widthInTiles, s.unitHt;
    var newCol := t.col + advance;
    if newCol >= w {
      Arith.DivModUnique(newCol, w, 1, newCol - w);
      assert (t.row + 1) * w == t.row * w + w;
      if t.row + 1 >= h {
        assert (t.block + 1) * s.pieceSize == t.block * s.pieceSize + h * w;
      }
    }
  }

  /** The staged carry of read_next_tile for a non-negative advance. Advancing
      by zero is the fast path that returns the tile unchanged. */
  function Carry(t: Tile, advance: int, s: Shape): (r: Tile)
    requires s.Positive() && advance >= 0
    ensures advance == 0 ==> r == t
    ensures r.block >= t.block
  {
    if advance == 0 then t
    else
      var (t1, a1) := PieceStage(t, advance, s);
      var (t2, a2) := RowStage(t1, a1, s);
      ColStage(t2, a2, s)
  }

  /** read_next_tile: a negative advance is rejected, anything else carried. */
  function NextTile(t: Tile, advance: int, s: Shape): (r: Result<Tile>)
    requires s.Positive()
    ensures r.Err? <==> advance < 0
    ensures r.Err? ==> r.error == NegativeAdvance
    ensures r.Ok? ==> r.value == Carry(t, advance, s)
  {
    if advance < 0 then Err(NegativeAdvance) else Ok(Carry(t, advance, s))
  }

  /** Decoding a linear position gives an in-range tile at that position. */
  lemma LinearOfDecode(n: int, s: Shape)
    requires s.Consistent()
    ensures s.Holds(s.Decode(n)) && s.Linear(s.Decode(n)) == n
  {
    var P, w := s.pieceSize, s.widthInTiles;
    var m := n % P;
    assert n == (n / P) * P + m && 0 <= m < P;
    assert m == (m / w) * w + m % w;
    Arith.LeDivIff(s.unitHt, m, w);
  }

  /** An in-range tile is recovered from its linear position. */
  lemma DecodeOfLinear(t: Tile, s: Shape)
    requires s.Consistent() && s.Holds(t)
    ensures s.Decode(s.Linear(t)) == t
  {
    var P, w := s.pieceSize, s.widthInTiles;
    var off := t.row * w + t.col;
    Arith.MulMono(t.row, s.unitHt - 1, w);
    assert (s.unitHt - 1) * w == P - w;
    assert 0 <= off < P;
    Arith.DivModUnique(s.Linear(t), P, t.block, off);
    Arith.DivModUnique(off, w, t.row, t.col);
  }

  /** Less than a piece splits into fewer than `h` whole rows and a remainder
      of less than a row. */
  lemma RowSplit(advance: int, w: int, h: int)
    requires w > 0 && h > 0 && 0 <= advance < h * w
    ensures 0 <= advance / w < h && 0 <= advance - (advance / w) * w < w
  {
    Arith.LeDivIff(h, advance, w);
    assert advance == (advance / w) * w + advance % w;
  }

  /** Moving `rows` rows down adds `rows` widths to the linear position. */
  lemma RowsMove(t: Tile, rows: int, s: Shape)
    ensures s.Linear(t.(row := t.row + rows)) == s.Linear(t) + rows * s.widthInTiles
  {
    assert (t.row + rows) * s.widthInTiles == t.row * s.widthInTiles + rows * s.widthInTiles;
  }

  /** One block further on and one block-unit height higher up is the same place. */
  lemma BlockForRows(t: Tile, newRow: int, s: Shape)
    requires s.Consistent()
    ensures s.Linear(Tile(newRow - s.unitHt, t.col, t.block + 1)) == s.Linear(Tile(newRow, t.col, t.block))
  {
    var w, h := s.widthInTiles, s.unitHt;
    assert (t.block + 1) * s.pieceSize == t.block * s.pieceSize + h * w;
    assert (newRow - h) * w == newRow * w - h * w;
  }

  /** Carry agreement: for an in-range tile the staged carry lands on the
      linear position advanced by `advance`, stays in range, and equals the
      flattened div/mod formulation. */
  lemma CarryAgreesWithDivmod(t: Tile, advance: int, s: Shape)
    requires s.Consistent() && s.Holds(t) && advance >= 0
    ensures s.Holds(Carry(t, advance, s))
    ensures s.Linear(Carry(t, advance, s)) == s.Linear(t) + advance
    ensures Carry(t, advance, s) == s.Decode(s.Linear(t) + advance)
  {
    if advance == 0 {
      DecodeOfLinear(t, s);
    } else {
      var (t1, a1) := PieceStage(t, advance, s);
      PieceStageKeepsTarget(t, advance, s);
      var (t2, a2) := RowStage(t1, a1, s);
      RowStageKeepsTarget(t1, a1, s);
      ColStageKeepsTarget(t2, a2, s);
      DecodeOfLinear(Carry(t, advance, s), s);
    }
  }

  // ---------------------------------------------------------------------------
  // Remaining-tile count (how_many_tiles_to_read_formula)
  // ---------------------------------------------------------------------------

  /** The closed-form count: the current tile, plus one for every whole stride
      that fits in the tiles left in this block and in the blocks up to `last`. */
  function TilesToRead(t: Tile, stride: int, last: int, s: Shape): (r: int)
    requires stride > 0
    ensures s.Consistent() && s.Holds(t) && t.block <= last ==> r >= 1
  {
    var offset := t.row * s.widthInTiles + t.col;
    var leftInBlock := s.pieceSize - offset - 1;
    var futureBlocks := (last - t.block) * s.pieceSize;
    assert s.Consistent() && s.Holds(t) && t.block <= last ==> leftInBlock >= 0 && futureBlocks >= 0 by {
      if s.Consistent() && s.Holds(t) && t.block <= last {
        OffsetInPiece(t, s);
        Arith.MulMono(0, last - t.block, s.pieceSize);
      }
    }
    1 + (leftInBlock + futureBlocks) / stride
  }

  /** The tile reached after `i` advances by `stride`. */
  function Iterate(t: Tile, stride: int, i: nat, s: Shape): Tile
    requires s.Positive() && stride >= 0
  {
    if i == 0 then t else Carry(Iterate(t, stride, i - 1, s), stride, s)
  }

  /** The first `n` tiles of the strided run from `t`, in visiting order. */
  function Walk(t: Tile, stride: int, n: nat, s: Shape): seq<Tile>
    requires s.Positive() && stride >= 0
  {
    seq(n, (i: int) requires 0 <= i < n => Iterate(t, stride, i, s))
  }

  /** After `i` advances an in-range tile is still in range and `i * stride`
      further along the linear order. */
  lemma {:induction false} IterateLinear(t: Tile, stride: int, i: nat, s: Shape)
    requires s.Consistent() && s.Holds(t) && stride >= 0
    ensures s.Holds(Iterate(t, stride, i, s))
    ensures s.Linear(Iterate(t, stride, i, s)) == s.Linear(t) + i * stride
  {
    if i > 0 {
      IterateLinear(t, stride, i - 1, s);
      CarryAgreesWithDivmod(Iterate(t, stride, i - 1, s), stride, s);
      assert (i - 1) * stride + stride == i * stride;
    }
  }

  /** Advancing `a` times and then `b` times is advancing `a + b` times. */
  lemma {:induction false} IterateAdd(t: Tile, stride: int, a: nat, b: nat, s: Shape)
    requires s.Positive() && stride >= 0
    ensures Iterate(Iterate(t, stride, a, s), stride, b, s) == Iterate(t, stride, a + b, s)
  {
    if b > 0 {
      IterateAdd(t, stride, a, b - 1, s);
    }
  }

  /** The row-major offset of an in-range tile lies inside one piece. */
  lemma OffsetInPiece(t: Tile, s: Shape)
    requires s.Consistent() && s.Holds(t)
    ensures 0 <= t.row * s.widthInTiles + t.col < s.pieceSize
  {
    Arith.MulMono(t.row, s.unitHt - 1, s.widthInTiles);
    assert (s.unitHt - 1) * s.widthInTiles == s.pieceSize - s.widthInTiles;
  }

  /** Count correctness: from an in-range tile at or before `last`, the formula
      is at least one, and the `i`-th strided tile is still at or before block
      `last` exactly when `i` is below the formula's count. */
  lemma CountCorrect(t: Tile, stride: int, last: int, s: Shape)
    requires s.Consistent() && s.Holds(t) && stride > 0 && t.block <= last
    ensures TilesToRead(t, stride, last, s) >= 1
    ensures forall i: nat :: Iterate(t, stride, i, s).block <= last <==> i < TilesToRead(t, stride, last, s)
  {
    var m := CountClosedForm(t, stride, last, s);
    forall i: nat
      ensures Iterate(t, stride, i, s).block <= last <==> i < TilesToRead(t, stride, last, s)
    {
      IterateWithinLast(t, stride, last, i, m, s);
    }
  }

  lemma IterateWithinLast(t: Tile, stride: int, last: int, i: nat, m: int, s: Shape)
    requires s.Consistent() && s.Holds(t) && stride > 0
    requires m == (last + 1) * s.pieceSize - 1 - s.Linear(t) && m >= 0
    ensures Iterate(t, stride, i, s).block <= last <==> i <= m / stride
  {
    var u := Iterate(t, stride, i, s);
    IterateLinear(t, stride, i, s);
    DecodeOfLinear(u, s);
    assert u.block == s.Linear(u) / s.pieceSize;
    Arith.DivAtMostIff(s.Linear(u), s.pieceSize, last);
    assert u.block <= last <==> i * stride <= m;
    Arith.LeDivIff(i, m, stride);
  }

  /** The formula counts the strides that fit between the tile and the last
      position of block `last`, plus the tile itself. */
  lemma CountClosedForm(t: Tile, stride: int, last: int, s: Shape) returns (m: int)
    requires s.Consistent() && s.Holds(t) && stride > 0 && t.block <= last
    ensures m == (last + 1) * s.pieceSize - 1 - s.Linear(t) && m >= 0
    ensures TilesToRead(t, stride, last, s) == 1 + m / stride
  {
    var P := s.pieceSize;
    var offset := t.row * s.widthInTiles + t.col;
    m := (last + 1) * P - 1 - s.Linear(t);
    OffsetInPiece(t, s);
    assert (last - t.block) * P + P == (last + 1) * P - t.block * P;
    assert P - offset - 1 + (last - t.block) * P == m;
    Arith.MulMono(t.block + 1, last + 1, P);
    assert (t.block + 1) * P == t.block * P + P;
  }

  // ---------------------------------------------------------------------------
  // Granular batch reader (read_tiles_granular)
  // ---------------------------------------------------------------------------

  /** Cut a run into consecutive batches of `min(remaining, granularity)`. */
  function Chunked<T>(xs: seq<T>, granularity: int): seq<seq<T>>
    requires granularity > 0
    decreases |xs|
  {
    if |xs| == 0 then []
    else
      var m := Min(|xs|, granularity);
      [xs[..m]] + Chunked(xs[m..], granularity)
  }

  /** Concatenation of batches. */
  function Flatten<T>(bs: seq<seq<T>>): seq<T> {
    if |bs| == 0 then [] else bs[0] + Flatten(bs[1..])
  }

  /** Batch reassembly: concatenating the batches gives back the run. */
  lemma {:induction false} FlattenChunked<T>(xs: seq<T>, granularity: int)
    requires granularity > 0
    ensures Flatten(Chunked(xs, granularity)) == xs
    decreases |xs|
  {
    if |xs| > 0 {
      var m := Min(|xs|, granularity);
      var bs := Chunked(xs, granularity);
      FlattenChunked(xs[m..], granularity);
      assert bs[1..] == Chunked(xs[m..], granularity);
      assert xs == xs[..m] + xs[m..];
    }
  }

  /** Batch sizes: batch `j` holds `min(remaining, granularity)` items, every
      batch is non-empty, every batch but the last is full, and the batches
      cover the run. */
  lemma {:induction false} ChunkedSizes<T>(xs: seq<T>, granularity: int)
    requires granularity > 0
    ensures var bs := Chunked(xs, granularity);
      (forall j :: 0 <= j < |bs| ==> |bs[j]| == Min(|xs| - j * granularity, granularity) && |bs[j]| > 0)
      && (forall j :: 0 <= j < |bs| - 1 ==> |bs[j]| == granularity)
      && (|bs| - 1) * granularity < |xs| <= |bs| * granularity
    decreases |xs|
  {
    var g := granularity;
    var bs := Chunked(xs, g);
    if |xs| > 0 {
      var m := Min(|xs|, g);
      var rest := Chunked(xs[m..], g);
      ChunkedSizes(xs[m..], g);
      assert bs == [xs[..m]] + rest;
      if m < g {
        assert rest == [];
      }
      forall j | 0 < j < |bs|
        ensures |bs[j]| == Min(|xs| - j * g, g)
      {
        assert bs[j] == rest[j - 1];
        assert |xs| - m - (j - 1) * g == |xs| - j * g;
      }
      assert (|rest| - 1) * g + g == (|bs| - 1) * g;
      assert |rest| * g + g == |bs| * g;
    }
  }

  /** What read_tiles_granular visits: the validation errors in the source's
      order, then one advance by the worker id; no work when that first tile
      is past `last`, otherwise the counted strided run cut into batches. */
  function GranularSpec(workerId: int, start: Tile, stride: int, last: int, granularity: int, s: Shape)
    : (r: Result<seq<seq<Tile>>>)
    requires s.Positive()
    ensures r.Err? <==> granularity <= 0 || stride <= 0 || last < start.block || workerId < 0
    ensures granularity <= 0 ==> r == Err(GranularityNotPositive)
    ensures granularity > 0 && stride <= 0 ==> r == Err(StrideNotPositive)
    ensures granularity > 0 && stride > 0 && last < start.block ==> r == Err(LastBeforeStart)
    ensures granularity > 0 && stride > 0 && last >= start.block && workerId < 0 ==> r == Err(NegativeAdvance)
    ensures r.Ok? && Carry(start, workerId, s).block > last ==> r.value == []
  {
    if granularity <= 0 then Err(GranularityNotPositive)
    else if stride <= 0 then Err(StrideNotPositive)
    else if last < start.block then Err(LastBeforeStart)
    else match NextTile(start, workerId, s)
      case Err(e) => Err(e)
      case Ok(first) =>
        if first.block > last then Ok([])
        else
          var n := TilesToRead(first, stride, last, s);
          Ok(Chunked(Walk(first, stride, if n > 0 then n else 0, s), granularity))
  }

  /** For an in-range start and valid arguments, the reader's batches are
      non-empty exactly when the worker has work, and reassemble into
      `first, first + stride, first + 2 * stride, ...` (first being the start
      advanced by the worker id), all at or before block `last`, stopping just
      before the first tile past `last`; the run has the formula's count, and
      the batches hold `min(remaining, granularity)` tiles each, all but the
      last full. */
  lemma GranularRunCorrect(workerId: int, start: Tile, stride: int, last: int, granularity: int, s: Shape)
    requires s.Consistent() && s.Holds(start)
    requires granularity > 0 && stride > 0 && start.block <= last && workerId >= 0
    ensures var r := GranularSpec(workerId, start, stride, last, granularity, s);
      var first := Carry(start, workerId, s);
      var run := Flatten(r.value);
      r.Ok?
      && (r.value == [] <==> first.block > last)
      && (forall i :: 0 <= i < |run| ==>
            run[i].block <= last && run[i] == s.Decode(s.Linear(start) + workerId + i * stride))
      && (first.block <= last ==> Iterate(first, stride, |run|, s).block > last)
      && (first.block <= last ==> |run| == TilesToRead(first, stride, last, s))
      && (forall j :: 0 <= j < |r.value| ==> |r.value[j]| == Min(|run| - j * granularity, granularity))
      && (forall j :: 0 <= j < |r.value| - 1 ==> |r.value[j]| == granularity)
  {
    var r := GranularSpec(workerId, start, stride, last, granularity, s);
    var first := Carry(start, workerId, s);
    CarryAgreesWithDivmod(start, workerId, s);
    if first.block <= last {
      var n := TilesToRead(first, stride, last, s);
      CountCorrect(first, stride, last, s);
      var w := Walk(first, stride, n, s);
      assert r.value == Chunked(w, granularity);
      FlattenChunked(w, granularity);
      ChunkedSizes(w, granularity);
      forall i | 0 <= i < n
        ensures w[i].block <= last && w[i] == s.Decode(s.Linear(start) + workerId + i * stride)
      {
        IterateLinear(first, stride, i, s);
        DecodeOfLinear(w[i], s);
      }
    }
  }

  /** Splitting a run after `m` tiles: the rest is the run from the `m`-th tile. */
  lemma WalkSplit(t: Tile, stride: int, m: nat, n: nat, s: Shape)
    requires s.Positive() && stride >= 0 && m <= n
    ensures Walk(t, stride, n, s)[..m] == Walk(t, stride, m, s)
    ensures Walk(t, stride, n, s)[m..] == Walk(Iterate(t, stride, m, s), stride, n - m, s)
  {
    forall i | 0 <= i < n - m
      ensures Walk(t, stride, n, s)[m..][i] == Walk(Iterate(t, stride, m, s), stride, n - m, s)[i]
    {
      IterateAdd(t, stride, m, i, s);
    }
  }

  /** One step of the batch loop: the run from `t` cut into batches is the
      first batch of `min(n, granularity)` tiles followed by the batches of
      the run from where that batch ends. */
  lemma ChunkedWalkStep(t: Tile, stride: int, n: nat, granularity: int, s: Shape)
    requires s.Positive() && stride >= 0 && granularity > 0 && n > 0
    ensures var m := Min(n, granularity);
      Chunked(Walk(t, stride, n, s), granularity)
        == [Walk(t, stride, m, s)] + Chunked(Walk(Iterate(t, stride, m, s), stride, n - m, s), granularity)
  {
    WalkSplit(t, stride, Min(n, granularity), n, s);
  }

  /** read_tiles_granular, returning the visited tiles batch by batch instead
      of printing them. */
  method ReadTilesGranular(workerId: int, start: Tile, stride: int, last: int, granularity: int, s: Shape)
    returns (r: Result<seq<seq<Tile>>>)
    requires s.Positive()
    ensures r == GranularSpec(workerId, start, stride, last, granularity, s)
  {
    if granularity <= 0 { return Err(GranularityNotPositive); }
    if stride <= 0 { return Err(StrideNotPositive); }
    if last < start.block { return Err(LastBeforeStart); }
    var next := NextTile(start, workerId, s);
    if next.Err? { return Err(next.error); }
    var cur := next.value;
    if cur.block > last { return Ok([]); }
    var tilesToRead := TilesToRead(cur, stride, last, s);
    ghost var first := cur;
    ghost var total: nat := if tilesToRead > 0 then tilesToRead else 0;
    var batches: seq<seq<Tile>> := [];
    assert GranularSpec(workerId, start, stride, last, granularity, s) == Ok(Chunked(Walk(first, stride, total, s), granularity));
    while tilesToRead > 0
      invariant batches + Chunked(Walk(cur, stride, if tilesToRead > 0 then tilesToRead else 0, s), granularity)
                == Chunked(Walk(first, stride, total, s), granularity)
    {
      var step := Min(tilesToRead, granularity);
      ChunkedWalkStep(cur, stride, tilesToRead, granularity, s);
      ghost var rest := Chunked(Walk(Iterate(cur, stride, step, s), stride, tilesToRead - step, s), granularity);
      assert batches + [Walk(cur, stride, step, s)] + rest == batches + ([Walk(cur, stride, step, s)] + rest);
      var batch;
      batch, cur := ReadBatch(cur, stride, step, s);
      batches := batches + [batch];
      tilesToRead := tilesToRead - step;
    }
    assert Walk(cur, stride, 0, s) == [];
    assert batches + [] == batches;
    return Ok(batches);
  }

  /** The inner loop of read_tiles_granular: `count` tiles from `from`, the
      coordinate advancing by `stride` after each. */
  method ReadBatch(from: Tile, stride: int, count: nat, s: Shape) returns (batch: seq<Tile>, next: Tile)
    requires s.Positive() && stride >= 0
    ensures batch == Walk(from, stride, count, s)
    ensures next == Iterate(from, stride, count, s)
  {
    var cur := from;
    batch := [];
    for i := 0 to count
      invariant batch == Walk(from, stride, i, s)
      invariant cur == Iterate(from, stride, i, s)
    {
      batch := batch + [cur];
      cur := NextTile(cur, stride, s).value;
    }
    next := cur;
  }
}
