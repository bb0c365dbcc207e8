/** utils.py, block_slice and block_combine: cutting a 2-D array into blocks
    and putting the blocks back together, both written as numpy reshapes
    around one swapaxes(1, 2). */
module Blocks {
  import opened Wrappers
  import opened Matrix
  import opened Arith
  import opened Reshape

  /** The size of the one -1 dimension of a reshape: the array's size over the
      product of the other dimensions; numpy raises ValueError when that
      product is 0 or does not divide the size. */
  function InferDim(size: nat, known: nat): (r: Result<nat>)
    ensures r.Success? <==> known > 0 && size % known == 0
    ensures r.Failure? ==> r.error == ValueError
    ensures r.Success? ==> size == known * r.value
  {
    if known == 0 || size % known != 0 then Failure(ValueError) else Success(size / known)
  }

  /** A 3-D array: blocks that all have rows x cols cells. */
  predicate Cube(bs: seq<Mat>, rows: nat, cols: nat) {
    forall k :: 0 <= k < |bs| ==> HasShape(bs[k], rows, cols)
  }

  /** s.reshape(n, rows, cols). */
  function Reshape3(s: seq<int>, n: nat, rows: nat, cols: nat): (r: seq<Mat>)
    requires |s| == n * rows * cols
    ensures |r| == n && Cube(r, rows, cols)
  {
    var c := Chunks(s, n * rows, cols);
    ChunksAll(c, n, rows, (row: seq<int>) => |row| == cols);
    Chunks(c, n, rows)
  }

  /** bs.ravel() for a 3-D array. */
  function Ravel3(bs: seq<Mat>): seq<int> {
    Concat(Concat(bs))
  }

  lemma Ravel3Length(bs: seq<Mat>, rows: nat, cols: nat)
    requires Cube(bs, rows, cols)
    ensures |Concat(bs)| == |bs| * rows && Uniform(Concat(bs), cols)
    ensures |Ravel3(bs)| == |bs| * rows * cols
  {
    ConcatLength(bs, rows);
    ConcatAll(bs, (row: seq<int>) => |row| == cols);
    ConcatLength(Concat(bs), cols);
  }

  lemma Ravel3Reshape3(s: seq<int>, n: nat, rows: nat, cols: nat)
    requires |s| == n * rows * cols
    ensures Ravel3(Reshape3(s, n, rows, cols)) == s
  {
    var c := Chunks(s, n * rows, cols);
    ConcatChunks(c, n, rows);
    ConcatChunks(s, n * rows, cols);
  }

  lemma Reshape3Ravel3(bs: seq<Mat>, rows: nat, cols: nat)
    requires Cube(bs, rows, cols)
    ensures |Ravel3(bs)| == |bs| * rows * cols
    ensures Reshape3(Ravel3(bs), |bs|, rows, cols) == bs
  {
    Ravel3Length(bs, rows, cols);
    ChunksConcat(Concat(bs), cols);
    ChunksConcat(bs, rows);
  }

  /** A positive product has positive factors. */
  lemma PositiveFactors(a: nat, b: nat, c: nat)
    requires a * b * c > 0
    ensures a > 0 && b > 0 && c > 0 && b * c > 0
  {
  }

  /** n blocks of b x c cells are inferred back as n blocks. */
  lemma InferCount(n: nat, b: nat, c: nat)
    requires b * c > 0
    ensures InferDim(n * b * c, b * c) == Success(n)
  {
    MulDiv(n, b * c);
    assert n * b * c == n * (b * c);
  }

  /** f.reshape(a, nrows, -1, ncols).swapaxes(1, 2), read back row-major. */
  function SliceAxes(f: seq<int>, a: nat, nrows: nat, ncols: nat): (r: Result<seq<int>>)
    ensures r.Success? ==> |r.value| == |f|
  {
    match InferDim(|f|, a * nrows * ncols)
    case Failure(e) => Failure(e)
    case Success(x) =>
      SwapLast(a, nrows, ncols, x);
      Success(SwapMiddle(f, a, nrows, x, ncols))
  }

  /** s.reshape(-1, nrows, ncols). */
  function Restack(s: seq<int>, nrows: nat, ncols: nat): (r: Result<seq<Mat>>)
    ensures r.Success? ==> Cube(r.value, nrows, ncols)
  {
    match InferDim(|s|, nrows * ncols)
    case Failure(e) => Failure(e)
    case Success(n) =>
      ShiftFirst(n, nrows, ncols);
      Success(Reshape3(s, n, nrows, ncols))
  }

  /** block_slice(arr, nrows, ncols): arr.reshape(h // nrows, nrows, -1, ncols)
      .swapaxes(1, 2).reshape(-1, nrows, ncols) for an array of h rows. */
  function BlockSlice(arr: Mat, nrows: nat, ncols: nat): (r: Result<seq<Mat>>)
    requires Rectangular(arr)
    ensures r.Success? ==> Cube(r.value, nrows, ncols)
  {
    if nrows == 0 then Failure(ZeroDivisionError)
    else
      match SliceAxes(Concat(arr), |arr| / nrows, nrows, ncols)
      case Failure(e) => Failure(e)
      case Success(s) => Restack(s, nrows, ncols)
  }

  /** g.reshape(p, -1, bnrows, bncols).swapaxes(1, 2), read back row-major. */
  function CombineAxes(g: seq<int>, p: nat, bnrows: nat, bncols: nat): (r: Result<seq<int>>)
    ensures r.Success? ==> |r.value| == |g|
  {
    match InferDim(|g|, p * bnrows * bncols)
    case Failure(e) => Failure(e)
    case Success(y) =>
      SwapLast(p, bnrows, bncols, y);
      SwapMid(p, bnrows, y, bncols);
      Success(SwapMiddle(g, p, y, bnrows, bncols))
  }

  /** block_combine(arr, nrows, ncols) for a 3-D array of blocks of
      bnrows x bncols cells: ValueError unless the array has nrows * ncols
      cells, then arr.reshape(nrows // bnrows, -1, bnrows, bncols)
      .swapaxes(1, 2).reshape(nrows, ncols). */
  function BlockCombine(blocks: seq<Mat>, bnrows: nat, bncols: nat, nrows: nat, ncols: nat): (r: Result<Mat>)
    requires Cube(blocks, bnrows, bncols)
    ensures r.Success? ==> HasShape(r.value, nrows, ncols)
  {
    if |blocks| * bnrows * bncols != nrows * ncols then Failure(ValueError)
    else if bnrows == 0 then Failure(ZeroDivisionError)
    else Regrid(blocks, bnrows, bncols, nrows, ncols)
  }

  /** The reshapes of block_combine once the size check has passed. */
  function Regrid(blocks: seq<Mat>, bnrows: nat, bncols: nat, nrows: nat, ncols: nat): (r: Result<Mat>)
    requires Cube(blocks, bnrows, bncols) && bnrows > 0
    requires |blocks| * bnrows * bncols == nrows * ncols
    ensures r.Success? ==> HasShape(r.value, nrows, ncols)
  {
    Ravel3Length(blocks, bnrows, bncols);
    match CombineAxes(Ravel3(blocks), nrows / bnrows, bnrows, bncols)
    case Failure(e) => Failure(e)
    case Success(s) => Success(Reshape2(s, nrows, ncols))
  }

  /** s.reshape(rows, cols). */
  function Reshape2(s: seq<int>, rows: nat, cols: nat): (r: Mat)
    requires |s| == rows * cols
    ensures HasShape(r, rows, cols)
  {
    Chunks(s, rows, cols)
  }

  /** block_combine(block_slice(a, nrows, ncols), h, w) == a whenever
      block_slice accepts the h x w array a. */
  lemma CombineSlice(arr: Mat, nrows: nat, ncols: nat)
    requires Rectangular(arr)
    requires BlockSlice(arr, nrows, ncols).Success?
    ensures BlockCombine(BlockSlice(arr, nrows, ncols).value, nrows, ncols, |arr|, Width(arr)) == Success(arr)
  {
    var f := Concat(arr);
    ConcatLength(arr, Width(arr));
    var a := |arr| / nrows;
    var x := InferDim(|f|, a * nrows * ncols).value;
    SwapLast(a, nrows, ncols, x);
    var s := SwapMiddle(f, a, nrows, x, ncols);
    var n := InferDim(|s|, nrows * ncols).value;
    ShiftFirst(n, nrows, ncols);
    var blocks := BlockSlice(arr, nrows, ncols).value;
    assert blocks == Reshape3(s, n, nrows, ncols);
    Ravel3Reshape3(s, n, nrows, ncols);
    SwapMiddleTwice(f, a, nrows, x, ncols);
    ChunksConcat(arr, Width(arr));
  }

  /** block_slice(block_combine(bs, h, w), bh, bw) == bs whenever block_combine
      accepts the blocks bs of bh x bw cells. */
  lemma SliceCombine(blocks: seq<Mat>, bnrows: nat, bncols: nat, nrows: nat, ncols: nat)
    requires Cube(blocks, bnrows, bncols)
    requires BlockCombine(blocks, bnrows, bncols, nrows, ncols).Success?
    ensures var m := BlockCombine(blocks, bnrows, bncols, nrows, ncols).value;
      Rectangular(m) && BlockSlice(m, bnrows, bncols) == Success(blocks)
  {
    var m := BlockCombine(blocks, bnrows, bncols, nrows, ncols).value;
    var size := |blocks| * bnrows * bncols;
    var g := Ravel3(blocks);
    Ravel3Length(blocks, bnrows, bncols);
    var p := nrows / bnrows;
    var y := InferDim(size, p * bnrows * bncols).value;
    SwapLast(p, bnrows, bncols, y);
    SwapMid(p, bnrows, y, bncols);
    var s := SwapMiddle(g, p, y, bnrows, bncols);
    assert m == Chunks(s, nrows, ncols);
    ConcatChunks(s, nrows, ncols);
    assert Width(m) == ncols;
    SwapMiddleTwice(g, p, y, bnrows, bncols);
    PositiveFactors(p, bnrows, bncols);
    InferCount(|blocks|, bnrows, bncols);
    Reshape3Ravel3(blocks, bnrows, bncols);
  }

  /** block_slice fails exactly when a reshape cannot be done: ZeroDivisionError
      for nrows = 0, and ValueError when the array has fewer than nrows rows,
      ncols is 0, or h // nrows * nrows * ncols does not divide the size. */
  lemma BlockSliceAccepts(arr: Mat, nrows: nat, ncols: nat)
    requires Rectangular(arr)
    ensures BlockSlice(arr, nrows, ncols).Success? <==>
      nrows > 0 && ncols > 0 && |arr| >= nrows &&
      (|arr| * Width(arr)) % (|arr| / nrows * nrows * ncols) == 0
    ensures BlockSlice(arr, nrows, ncols).Failure? ==>
      BlockSlice(arr, nrows, ncols).error == if nrows == 0 then ZeroDivisionError else ValueError
  {
    if nrows > 0 {
      KnownPositive(|arr|, nrows, ncols);
      var known := |arr| / nrows * nrows * ncols;
      var size := |arr| * Width(arr);
      if known > 0 && size % known == 0 {
        BlockSliceValue(arr, nrows, ncols, |arr| / nrows, size / known);
      } else {
        BlockSliceMisfit(arr, nrows, ncols);
      }
    }
  }

  /** The first reshape fails when its known dimensions do not divide the size. */
  lemma BlockSliceMisfit(arr: Mat, nrows: nat, ncols: nat)
    requires Rectangular(arr) && nrows > 0
    requires var known := |arr| / nrows * nrows * ncols;
      known == 0 || (|arr| * Width(arr)) % known != 0
    ensures BlockSlice(arr, nrows, ncols) == Failure(ValueError)
  {
    ConcatLength(arr, Width(arr));
  }

  /** The count of known cells of the first reshape is positive exactly when
      there are blocks to cut. */
  lemma KnownPositive(h: nat, nrows: nat, ncols: nat)
    requires nrows > 0
    ensures h / nrows * nrows * ncols > 0 <==> ncols > 0 && h >= nrows
  {
    var a := h / nrows;
    if h >= nrows {
      DivBetween(h, nrows, a);
    } else {
      DivBetween(h, nrows, 0);
    }
    if a > 0 && ncols > 0 {
      MulPositive(a, nrows, ncols);
    }
    if a * nrows * ncols > 0 {
      PositiveFactors(a, nrows, ncols);
    }
  }

  /** When both reshapes succeed, block_slice is the blocks of the data with
      its middle axes exchanged. */
  lemma BlockSliceValue(arr: Mat, nrows: nat, ncols: nat, a: nat, x: nat)
    requires Rectangular(arr) && nrows > 0 && a == |arr| / nrows
    requires a * nrows * ncols > 0 && |arr| * Width(arr) == a * nrows * ncols * x
    ensures |Concat(arr)| == a * nrows * x * ncols
    ensures a * nrows * x * ncols == a * x * nrows * ncols
    ensures BlockSlice(arr, nrows, ncols) ==
      Success(Reshape3(SwapMiddle(Concat(arr), a, nrows, x, ncols), a * x, nrows, ncols))
  {
    ConcatLength(arr, Width(arr));
    var known := a * nrows * ncols;
    PositiveFactors(a, nrows, ncols);
    MulDiv(x, known);
    assert InferDim(|Concat(arr)|, known) == Success(x);
    SwapLast(a, nrows, ncols, x);
    SwapMid(a, nrows, x, ncols);
    InferCount(a * x, nrows, ncols);
  }

  lemma MulPositive(a: nat, b: nat, c: nat)
    requires a > 0 && b > 0 && c > 0
    ensures a * b * c > 0
  {
    MulLe(1, a * b, c);
  }

  /** block_combine fails with ValueError when the number of cells is not
      nrows * ncols, then with ZeroDivisionError for blocks of no rows, then
      with ValueError when a reshape cannot be done. */
  lemma BlockCombineAccepts(blocks: seq<Mat>, bnrows: nat, bncols: nat, nrows: nat, ncols: nat)
    requires Cube(blocks, bnrows, bncols)
    ensures var size := |blocks| * bnrows * bncols;
      BlockCombine(blocks, bnrows, bncols, nrows, ncols).Success? <==>
        size == nrows * ncols && bnrows > 0 && bncols > 0 && nrows >= bnrows &&
        size % (nrows / bnrows * bnrows * bncols) == 0
    ensures var size := |blocks| * bnrows * bncols;
      BlockCombine(blocks, bnrows, bncols, nrows, ncols).Failure? ==>
        BlockCombine(blocks, bnrows, bncols, nrows, ncols).error ==
          if size == nrows * ncols && bnrows == 0 then ZeroDivisionError else ValueError
  {
    var size := |blocks| * bnrows * bncols;
    if size == nrows * ncols && bnrows > 0 {
      Ravel3Length(blocks, bnrows, bncols);
      KnownPositive(nrows, bnrows, bncols);
    }
  }

  /** Every row of arr cut into x parts of nc cells. */
  function RowParts(arr: Mat, x: nat, ncols: nat): (r: seq<seq<seq<int>>>)
    requires Uniform(arr, x * ncols)
    ensures |r| == |arr| && Uniform(r, x)
    ensures forall k :: 0 <= k < |r| ==> Uniform(r[k], ncols)
  {
    seq(|arr|, k requires 0 <= k < |arr| => Chunks(arr[k], x, ncols))
  }

  /** Reading an array of a nrows rows of x ncols cells as shape
      (a, nrows, x, ncols) cuts each row into x parts. */
  lemma SplitRows(arr: Mat, a: nat, nrows: nat, x: nat, ncols: nat)
    requires |arr| == a * nrows && Uniform(arr, x * ncols)
    ensures |Concat(arr)| == a * nrows * x * ncols
    ensures Split4(Concat(arr), a, nrows, x, ncols) == Chunks(RowParts(arr, x, ncols), a, nrows)
  {
    var r := RowParts(arr, x, ncols);
    ConcatLength(arr, x * ncols);
    assert a * nrows * (x * ncols) == a * nrows * x * ncols;
    ConcatConcat(r);
    forall k | 0 <= k < |r| ensures Concat(r[k]) == arr[k] {
      ConcatChunks(arr[k], x, ncols);
    }
    assert seq(|r|, k requires 0 <= k < |r| => Concat(r[k])) == arr;
    ConcatLength(r, x);
    ConcatAll(r, (part: seq<int>) => |part| == ncols);
    ChunksConcat(Concat(r), ncols);
    ChunksConcat(r, x);
  }

  /** Cell (q, i, p, j) of that 4-D reading is cell (q nrows + i, p ncols + j)
      of the array. */
  lemma SplitRowsCell(arr: Mat, a: nat, nrows: nat, x: nat, ncols: nat, q: nat, i: nat, p: nat, j: nat)
    requires |arr| == a * nrows && Uniform(arr, x * ncols)
    requires q < a && i < nrows && p < x && j < ncols
    ensures |Concat(arr)| == a * nrows * x * ncols
    ensures q * nrows + i < |arr| && p * ncols + j < x * ncols
    ensures Split4(Concat(arr), a, nrows, x, ncols)[q][i][p][j] == arr[q * nrows + i][p * ncols + j]
  {
    SplitRows(arr, a, nrows, x, ncols);
    Compose(q, a, i, nrows);
    Compose(p, x, j, ncols);
    ChunksIndex(RowParts(arr, x, ncols), a, nrows, q, i);
    ChunksIndex(arr[q * nrows + i], x, ncols, p, j);
  }

  /** The nrows x ncols block of arr whose top left cell is (r, c). */
  function SubBlock(arr: Mat, r: nat, c: nat, nrows: nat, ncols: nat): (b: Mat)
    requires Rectangular(arr) && r + nrows <= |arr| && c + ncols <= Width(arr)
    ensures HasShape(b, nrows, ncols)
  {
    seq(nrows, i requires 0 <= i < nrows => arr[r + i][c .. c + ncols])
  }

  /** The a x bx grid of blocks of an array of a nrows rows and bx ncols
      columns: block (q, p) starts at cell (q nrows, p ncols). */
  function Grid(arr: Mat, a: nat, nrows: nat, bx: nat, ncols: nat): (g: seq<seq<Mat>>)
    requires Rectangular(arr) && |arr| == a * nrows && Width(arr) == bx * ncols
    ensures |g| == a && Uniform(g, bx)
  {
    seq(a, q requires 0 <= q < a => seq(bx, p requires 0 <= p < bx =>
      GridBounds(a, nrows, bx, ncols, q, p);
      SubBlock(arr, q * nrows, p * ncols, nrows, ncols)))
  }

  lemma GridCell(arr: Mat, a: nat, nrows: nat, bx: nat, ncols: nat, q: nat, p: nat)
    requires Rectangular(arr) && |arr| == a * nrows && Width(arr) == bx * ncols
    requires q < a && p < bx
    ensures q * nrows + nrows <= |arr| && p * ncols + ncols <= Width(arr)
    ensures Grid(arr, a, nrows, bx, ncols)[q][p] == SubBlock(arr, q * nrows, p * ncols, nrows, ncols)
  {
    GridBounds(a, nrows, bx, ncols, q, p);
  }

  lemma GridBounds(a: nat, nrows: nat, bx: nat, ncols: nat, q: nat, p: nat)
    requires q < a && p < bx
    ensures q * nrows + nrows <= a * nrows && p * ncols + ncols <= bx * ncols
  {
    MulLe(q + 1, a, nrows);
    MulLe(p + 1, bx, ncols);
  }

  /** For an array of a nrows rows and bx ncols columns, block_slice yields the
      grid of blocks in raster order: the a block rows one after the other,
      each from left to right. */
  lemma BlockSliceRaster(arr: Mat, nrows: nat, ncols: nat, a: nat, bx: nat)
    requires Rectangular(arr) && nrows > 0 && ncols > 0 && a > 0 && bx > 0
    requires |arr| == a * nrows && Width(arr) == bx * ncols
    ensures BlockSlice(arr, nrows, ncols) == Success(Concat(Grid(arr, a, nrows, bx, ncols)))
  {
    var y := BlockSliceBlocks(arr, nrows, ncols, a, bx);
    var g := Grid(arr, a, nrows, bx, ncols);
    var x := Split4(Concat(arr), a, nrows, bx, ncols);
    SplitRows(arr, a, nrows, bx, ncols);
    var parts := RowParts(arr, bx, ncols);
    forall q | 0 <= q < a ensures y[q] == g[q] {
      forall p | 0 <= p < bx ensures y[q][p] == g[q][p] {
        forall i | 0 <= i < nrows ensures y[q][p][i] == g[q][p][i] {
          Compose(q, a, i, nrows);
          ChunksIndexRow(parts, a, nrows, q, i);
          ChunksSlice(arr[q * nrows + i], bx, ncols, p);
        }
      }
    }
    assert y == g;
  }

  /** Part i of part q of Chunks(s, n, len) is element q len + i of s. */
  lemma ChunksIndexRow<T>(s: seq<T>, n: nat, len: nat, q: nat, i: nat)
    requires |s| == n * len && q < n && i < len
    ensures q * len + i < |s| && Chunks(s, n, len)[q][i] == s[q * len + i]
  {
    ChunksIndex(s, n, len, q, i);
  }

  /** Part k of Chunks(s, n, len) is the slice of s from k len. */
  lemma ChunksSlice<T>(s: seq<T>, n: nat, len: nat, k: nat)
    requires |s| == n * len && k < n
    ensures k * len + len <= |s| && Chunks(s, n, len)[k] == s[k * len .. k * len + len]
  {
    var lo := k * len;
    MulLe(k + 1, n, len);
    MulPred(k + 1, len);
    assert lo + len <= |s|;
    var c := Chunks(s, n, len)[k];
    var w := s[lo .. lo + len];
    assert |c| == len == |w|;
    forall t | 0 <= t < len ensures c[t] == w[t] {
      ChunksIndex(s, n, len, k, t);
    }
  }

  /** The blocks are the block rows of the 4-D reading with its middle axes
      exchanged, one after the other. */
  lemma BlockSliceBlocks(arr: Mat, nrows: nat, ncols: nat, a: nat, bx: nat)
      returns (y: seq<seq<Mat>>)
    requires Rectangular(arr) && nrows > 0 && ncols > 0 && a > 0 && bx > 0
    requires |arr| == a * nrows && Width(arr) == bx * ncols
    ensures |Concat(arr)| == a * nrows * bx * ncols
    ensures Shape4(y, a, bx, nrows, ncols)
    ensures forall q, p, i :: 0 <= q < a && 0 <= p < bx && 0 <= i < nrows ==>
      y[q][p][i] == Split4(Concat(arr), a, nrows, bx, ncols)[q][i][p]
    ensures BlockSlice(arr, nrows, ncols) == Success(Concat(y))
  {
    MulPositive(a, nrows, ncols);
    MulDiv(a, nrows);
    var f := Concat(arr);
    SplitRows(arr, a, nrows, bx, ncols);
    PairProduct(a, nrows, bx, ncols);
    assert |arr| * Width(arr) == a * nrows * ncols * bx;
    BlockSliceValue(arr, nrows, ncols, a, bx);
    y := SwapAxes12(Split4(f, a, nrows, bx, ncols), a, nrows, bx, ncols);
    assert SwapMiddle(f, a, nrows, bx, ncols) == Ravel4(y);
    Concat4Shape(y, a, bx, nrows, ncols);
    ConcatAll(y, (b: Mat) => HasShape(b, nrows, ncols));
    Reshape3Ravel3(Concat(y), nrows, ncols);
  }

  /** np.arange(h * w).reshape(h, w). */
  function Arange(h: nat, w: nat): (m: Mat)
    ensures HasShape(m, h, w) && (h > 0 ==> Width(m) == w)
  {
    seq(h, r requires 0 <= r < h => seq(w, c requires 0 <= c < w => r * w + c))
  }

  /** np.arange(16).reshape(4, 4). */
  const Counting: Mat := [[0, 1, 2, 3], [4, 5, 6, 7], [8, 9, 10, 11], [12, 13, 14, 15]]

  lemma CountingShape()
    ensures HasShape(Counting, 4, 4) && Rectangular(Counting) && Width(Counting) == 4
  {
    assert forall i :: 0 <= i < 4 ==> |Counting[i]| == 4;
  }

  /** The 4 x 4 array 0..15 cut into 2 x 2 blocks, and put back together. */
  lemma SliceFixture()
    ensures BlockSlice(Counting, 2, 2) ==
      Success([[[0, 1], [4, 5]], [[2, 3], [6, 7]], [[8, 9], [12, 13]], [[10, 11], [14, 15]]])
  {
    CountingRaster();
    CountingBlocks();
  }

  /** The four 2 x 2 blocks of the array 0..15, cell by cell. */
  lemma CountingBlocks()
    ensures Rectangular(Counting) && Width(Counting) == 4
    ensures [SubBlock(Counting, 0, 0, 2, 2), SubBlock(Counting, 0, 2, 2, 2),
             SubBlock(Counting, 2, 0, 2, 2), SubBlock(Counting, 2, 2, 2, 2)] ==
      [[[0, 1], [4, 5]], [[2, 3], [6, 7]], [[8, 9], [12, 13]], [[10, 11], [14, 15]]]
  {
    CountingQuad(0, 0);
    CountingQuad(0, 2);
    CountingQuad(2, 0);
    CountingQuad(2, 2);
  }

  /** The 2 x 2 block of the array 0..15 at (r, c). */
  lemma CountingQuad(r: nat, c: nat)
    requires r + 2 <= 4 && c + 2 <= 4
    ensures Rectangular(Counting) && Width(Counting) == 4
    ensures SubBlock(Counting, r, c, 2, 2) ==
      [[4 * r + c, 4 * r + c + 1], [4 * r + c + 4, 4 * r + c + 5]]
  {
    CountingShape();
    Quad(Counting, r, c);
  }

  /** The blocks of the 4 x 4 array 0..15 in raster order. */
  lemma CountingRaster()
    ensures BlockSlice(Counting, 2, 2) == Success([
      SubBlock(Counting, 0, 0, 2, 2), SubBlock(Counting, 0, 2, 2, 2),
      SubBlock(Counting, 2, 0, 2, 2), SubBlock(Counting, 2, 2, 2, 2)])
  {
    CountingShape();
    BlockSliceRaster(Counting, 2, 2, 2, 2);
    var g := Grid(Counting, 2, 2, 2, 2);
    ConcatSquare(g);
    GridCell(Counting, 2, 2, 2, 2, 0, 0);
    GridCell(Counting, 2, 2, 2, 2, 0, 1);
    GridCell(Counting, 2, 2, 2, 2, 1, 0);
    GridCell(Counting, 2, 2, 2, 2, 1, 1);
  }

  /** A 2 x 2 block, cell by cell. */
  lemma Quad(arr: Mat, r: nat, c: nat)
    requires Rectangular(arr) && r + 2 <= |arr| && c + 2 <= Width(arr)
    ensures SubBlock(arr, r, c, 2, 2) == [[arr[r][c], arr[r][c + 1]], [arr[r + 1][c], arr[r + 1][c + 1]]]
  {
    var b := SubBlock(arr, r, c, 2, 2);
    assert b[0] == arr[r][c .. c + 2] == [arr[r][c], arr[r][c + 1]];
    assert b[1] == arr[r + 1][c .. c + 2] == [arr[r + 1][c], arr[r + 1][c + 1]];
  }

  lemma CombineFixture()
    ensures BlockCombine([[[0, 1], [4, 5]], [[2, 3], [6, 7]], [[8, 9], [12, 13]], [[10, 11], [14, 15]]], 2, 2, 4, 4)
      == Success(Counting)
  {
    SliceFixture();
    CombineSlice(Counting, 2, 2);
  }

  /** 3 x 3 blocks do not fit a 4 x 4 array, and 16 cells do not make a 4 x 3
      array. */
  lemma MisfitFixtures()
    ensures BlockSlice(Counting, 3, 3) == Failure(ValueError)
    ensures BlockCombine([[[0, 1], [4, 5]], [[2, 3], [6, 7]], [[8, 9], [12, 13]], [[10, 11], [14, 15]]], 2, 2, 4, 3)
      == Failure(ValueError)
  {
    ConcatLength(Counting, 4);
  }

  /** Cutting the 8 x 8 array 0..63 into 2 x 2 blocks and combining them gives
      the array back. */
  lemma InvertibleFixture()
    ensures BlockSlice(Arange(8, 8), 2, 2).Success?
    ensures BlockCombine(BlockSlice(Arange(8, 8), 2, 2).value, 2, 2, 8, 8) == Success(Arange(8, 8))
  {
    BlockSliceAccepts(Arange(8, 8), 2, 2);
    CombineSlice(Arange(8, 8), 2, 2);
  }
}
