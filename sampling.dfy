/** utils.py, downsample and upsample: chroma subsampling of a 2-D array by
    striding, and its undoing by repetition, for the modes 4:4:4 (mode 4),
    4:2:2 (mode 2) and 4:2:0 (mode 1). */
module Sampling {
  import opened Wrappers
  import opened Matrix
  import opened Arith

  /** s[::k] for k >= 1: every k-th element, starting with the first. */
  function Strided<T>(s: seq<T>, k: nat): (r: seq<T>)
    requires k >= 1
    ensures |r| == (|s| + k - 1) / k
    ensures forall i :: 0 <= i < |r| ==> i * k < |s| && r[i] == s[i * k]
    decreases |s|
  {
    if s == [] then []
    else if |s| <= k then
      DivBetween(|s| + k - 1, k, 1);
      [s[0]]
    else
      var rest := Strided(s[k..], k);
      StridedCons(s, k, rest);
      [s[0]] + rest
  }

  /** The step of Strided: the first element, then the stride of s[k..]. */
  lemma StridedCons<T>(s: seq<T>, k: nat, rest: seq<T>)
    requires k >= 1 && |s| > k
    requires |rest| == (|s| - k + k - 1) / k
    requires forall i :: 0 <= i < |rest| ==> i * k < |s| - k && rest[i] == s[k..][i * k]
    ensures |[s[0]] + rest| == (|s| + k - 1) / k
    ensures forall i :: 0 <= i < |rest| + 1 ==> i * k < |s| && ([s[0]] + rest)[i] == s[i * k]
  {
    DivShift(|s| - 1, k);
    forall i | 0 <= i < |rest| + 1 ensures i * k < |s| && ([s[0]] + rest)[i] == s[i * k] {
      if i > 0 {
        MulPred(i, k);
        assert ([s[0]] + rest)[i] == rest[i - 1] == s[k..][(i - 1) * k];
      }
    }
  }

  /** s with every element repeated k times in place (numpy's repeat). */
  function RepeatEach<T>(s: seq<T>, k: nat): (r: seq<T>)
    ensures |r| == |s| * k
    ensures forall i :: 0 <= i < |r| ==> i / k < |s| && r[i] == s[i / k]
  {
    if s == [] then []
    else
      var rest := RepeatEach(s[1..], k);
      RepeatCons(s, k, rest);
      seq(k, _ => s[0]) + rest
  }

  /** The step of RepeatEach: k copies of the first element, then the rest. */
  lemma RepeatCons<T>(s: seq<T>, k: nat, rest: seq<T>)
    requires |s| > 0 && |rest| == (|s| - 1) * k
    requires forall i :: 0 <= i < |rest| ==> i / k < |s| - 1 && rest[i] == s[1..][i / k]
    ensures var r := seq(k, _ => s[0]) + rest;
      |r| == |s| * k && forall i :: 0 <= i < |r| ==> i / k < |s| && r[i] == s[i / k]
  {
    var r := seq(k, _ => s[0]) + rest;
    MulPred(|s|, k);
    forall i | 0 <= i < |r| ensures i / k < |s| && r[i] == s[i / k] {
      if i < k {
        DivBetween(i, k, 0);
      } else {
        DivShift(i - k, k);
        assert r[i] == rest[i - k] == s[1..][(i - k) / k];
      }
    }
  }

  /** The reversed sequence. */
  function Reverse<T>(s: seq<T>): (r: seq<T>)
    ensures |r| == |s| && forall i :: 0 <= i < |s| ==> r[i] == s[|s| - 1 - i]
  {
    seq(|s|, i requires 0 <= i < |s| => s[|s| - 1 - i])
  }

  /** Python's s[::step]: a step of 0 raises ValueError, a negative step walks
      from the last element backwards. */
  function SliceStep<T>(s: seq<T>, step: int): (r: Result<seq<T>>)
    ensures r.Failure? <==> step == 0
    ensures r.Failure? ==> r.error == ValueError
    ensures step > 0 ==> r == Success(Strided(s, step))
  {
    if step == 0 then Failure(ValueError)
    else if step > 0 then Success(Strided(s, step))
    else Success(Strided(Reverse(s), -step))
  }

  // ---------------------------------------------------------------------
  // downsample and upsample

  /** downsample(arr, mode): mode 4 keeps the array; otherwise
      arr[::3 - mode, ::2], every (3 - mode)-th row and every other column. */
  function Downsample(arr: Mat, mode: int): Result<Mat> {
    if mode == 4 then Success(arr)
    else match SliceStep(arr, 3 - mode)
      case Failure(e) => Failure(e)
      case Success(rows) => Success(Narrow(rows))
  }

  /** arr[:, ::2]: every other column. */
  function Narrow(arr: Mat): (r: Mat)
    ensures |r| == |arr|
  {
    seq(|arr|, i requires 0 <= i < |arr| => Strided(arr[i], 2))
  }

  /** arr.repeat(2, axis=1): every column twice. */
  function Widen(arr: Mat): (r: Mat)
    ensures |r| == |arr|
  {
    seq(|arr|, i requires 0 <= i < |arr| => RepeatEach(arr[i], 2))
  }

  /** upsample(arr, mode): mode 4 keeps the array; otherwise every row is
      repeated 3 - mode times and every column twice (a negative repeat count
      raises ValueError). */
  function Upsample(arr: Mat, mode: int): Result<Mat> {
    if mode == 4 then Success(arr)
    else if 3 - mode < 0 then Failure(ValueError)
    else Success(RepeatEach(Widen(arr), 3 - mode))
  }

  /** Only mode 3 (a zero row step) makes downsample raise. */
  lemma DownsampleFails(arr: Mat, mode: int)
    ensures Downsample(arr, mode).Failure? <==> mode == 3
    ensures Downsample(arr, mode).Failure? ==> Downsample(arr, mode).error == ValueError
  {
  }

  /** In modes 1 and 2 the result has ceil(rows / (3 - mode)) rows of
      ceil(cols / 2) columns, and cell (i, j) is cell (i (3 - mode), 2 j) of
      the input. */
  lemma DownsampleShape(arr: Mat, mode: int)
    requires mode == 1 || mode == 2
    ensures var k := 3 - mode; var r := Downsample(arr, mode);
      && r.Success? && |r.value| == (|arr| + k - 1) / k
      && forall i :: 0 <= i < |r.value| ==>
           i * k < |arr| && |r.value[i]| == (|arr[i * k]| + 1) / 2
           && forall j :: 0 <= j < |r.value[i]| ==> r.value[i][j] == arr[i * k][2 * j]
  {
    var k := 3 - mode;
    var rows := Strided(arr, k);
    assert SliceStep(arr, k) == Success(rows);
    NarrowCells(rows);
  }

  /** Row i of Narrow(m) has ceil(|m[i]| / 2) cells, cell j being m[i][2 j]. */
  lemma NarrowCells(m: Mat)
    ensures forall i :: 0 <= i < |m| ==>
      |Narrow(m)[i]| == (|m[i]| + 1) / 2
      && forall j :: 0 <= j < |Narrow(m)[i]| ==> Narrow(m)[i][j] == m[i][2 * j]
  {
    forall i | 0 <= i < |m|
      ensures |Narrow(m)[i]| == (|m[i]| + 1) / 2
      ensures forall j :: 0 <= j < |Narrow(m)[i]| ==> Narrow(m)[i][j] == m[i][2 * j]
    {
      assert Narrow(m)[i] == Strided(m[i], 2);
    }
  }

  /** A rectangular array stays rectangular, with ceil(cols / 2) columns. */
  lemma DownsampleRectangular(arr: Mat, mode: int)
    requires mode == 1 || mode == 2
    requires Rectangular(arr)
    ensures var r := Downsample(arr, mode).value;
      Rectangular(r) && (r != [] ==> Width(r) == (Width(arr) + 1) / 2)
  {
    DownsampleShape(arr, mode);
  }

  /** In modes 1 and 2 (and the mode 3 that yields no rows), the result has
      rows (3 - mode) times as many rows and twice as many columns, and cell
      (i, j) is cell (i / (3 - mode), j / 2) of the input. */
  lemma UpsampleShape(arr: Mat, mode: int)
    requires 1 <= mode <= 3
    ensures var k := 3 - mode; var r := Upsample(arr, mode);
      && r.Success? && |r.value| == |arr| * k
      && forall i :: 0 <= i < |r.value| ==>
           i / k < |arr| && |r.value[i]| == 2 * |arr[i / k]|
           && forall j :: 0 <= j < |r.value[i]| ==> j / 2 < |arr[i / k]| && r.value[i][j] == arr[i / k][j / 2]
  {
  }

  /** upsample raises exactly for the modes above 4, whose repeat count
      3 - mode is negative. */
  lemma UpsampleFails(arr: Mat, mode: int)
    ensures Upsample(arr, mode).Failure? <==> mode > 4
    ensures Upsample(arr, mode).Failure? ==> Upsample(arr, mode).error == ValueError
  {
  }

  /** Striding by k undoes repeating by k. */
  lemma {:induction false} StridedRepeat<T>(s: seq<T>, k: nat)
    requires k >= 1
    ensures Strided(RepeatEach(s, k), k) == s
  {
    if s != [] {
      var copies := seq(k, _ => s[0]);
      var rest := RepeatEach(s[1..], k);
      var t := RepeatEach(s, k);
      assert t == copies + rest;
      StridedRepeat(s[1..], k);
      if |t| <= k {
        assert rest == [];
        assert s[1..] == [];
      } else {
        assert t[k..] == rest;
      }
    }
  }

  /** downsample(upsample(a, m), m) == a for the modes 1, 2 and 4. */
  lemma DownsampleUpsample(arr: Mat, mode: int)
    requires mode == 1 || mode == 2 || mode == 4
    ensures Upsample(arr, mode).Success?
    ensures Downsample(Upsample(arr, mode).value, mode) == Success(arr)
  {
    if mode != 4 {
      StridedRepeat(Widen(arr), 3 - mode);
      NarrowWiden(arr);
    }
  }

  /** Keeping every other column undoes doubling every column. */
  lemma NarrowWiden(arr: Mat)
    ensures Narrow(Widen(arr)) == arr
  {
    var d := Narrow(Widen(arr));
    forall i | 0 <= i < |arr| ensures d[i] == arr[i] {
      StridedRepeat(arr[i], 2);
    }
  }

  /** The fixtures: a 2 x 3 array downsampled in mode 1, and a 2 x 2 array
      upsampled in mode 1. */
  lemma DownsampleFixture()
    ensures Downsample([[0, 51, 102], [153, 204, 255]], 1) == Success([[0, 102]])
  {
    var arr: Mat := [[0, 51, 102], [153, 204, 255]];
    assert Strided(arr, 2) == [arr[0]];
    assert Strided([102], 2) == [102];
    assert [0, 51, 102][2..] == [102];
    assert Strided([0, 51, 102], 2) == [0, 102];
    assert Narrow([arr[0]]) == [Strided(arr[0], 2)];
  }

  lemma UpsampleFixture()
    ensures Upsample([[0, 85], [170, 255]], 1) ==
      Success([[0, 0, 85, 85], [0, 0, 85, 85], [170, 170, 255, 255], [170, 170, 255, 255]])
  {
    assert RepeatEach([85], 2) == [85, 85] by {
      assert seq(2, _ => 85) == [85, 85];
    }
    assert RepeatEach([0, 85], 2) == [0, 0, 85, 85] by {
      assert seq(2, _ => 0) == [0, 0];
      assert [0, 85][1..] == [85];
    }
    assert RepeatEach([255], 2) == [255, 255] by {
      assert seq(2, _ => 255) == [255, 255];
    }
    assert RepeatEach([170, 255], 2) == [170, 170, 255, 255] by {
      assert seq(2, _ => 170) == [170, 170];
      assert [170, 255][1..] == [255];
    }
    var w := Widen([[0, 85], [170, 255]]);
    assert w == [[0, 0, 85, 85], [170, 170, 255, 255]];
    assert RepeatEach(w[1..], 2) == [w[1], w[1]] by {
      assert seq(2, _ => w[1]) == [w[1], w[1]];
    }
    assert RepeatEach(w, 2) == [w[0], w[0], w[1], w[1]] by {
      assert seq(2, _ => w[0]) == [w[0], w[0]];
    }
  }
}
